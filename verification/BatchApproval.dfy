/** Batch approval of telemetry two changes: the listed changes are carried out in order of their
    timestamps, updates to one profile are merged, what succeeds is approved, and whatever else is
    pending on a profile that was changed is cancelled. */
module BatchApproval {
  import opened Basics

  datatype Profile = Profile(id: string, name: string, jsonconfig: string, applicationType: string)

  datatype Operation =
    | Create(newEntity: Profile)
    | Update(oldEntity: Profile, newEntity: Profile)
    | Delete(oldEntity: Profile)

  datatype Change = Change(
    id: string, entityId: string, updated: int, operation: Operation,
    applicationType: string, author: string, approvedUser: string)

  /** An authorised caller, and the time at which it calls. */
  datatype Caller = Caller(app: string, user: string, now: int)

  /** Predicates of the surrounding library: a profile on its own, a profile among the stored ones, an
      approved record. */
  datatype Library = Library(
    valid: Profile -> bool, validAmong: (Profile, map<string, Profile>) -> bool, validApproved: Change -> bool)

  /** The state while a batch runs: the three stores, the merged updates per profile, the changes that
      failed, and the profiles whose other changes are to be cancelled. */
  datatype Batch = Batch(
    pending: map<string, Change>, approved: map<string, Change>, profiles: map<string, Profile>,
    merged: map<string, Profile>, errors: set<string>, touched: seq<string>)

  type Bindings = map<string, seq<string>>

  // ---- guards of the profile operations

  predicate MayCreate(profiles: map<string, Profile>, lib: Library, caller: Caller, p: Profile) {
    && (p.id in profiles ==> && ApplicationTypeEquals(profiles[p.id].applicationType, p.applicationType)
                             && !ApplicationTypeEquals(profiles[p.id].applicationType, caller.app))
    && lib.valid(p) && lib.validAmong(p, profiles)
  }

  predicate MayUpdate(profiles: map<string, Profile>, lib: Library, caller: Caller, p: Profile) {
    && p.id != "" && p.id in profiles
    && ApplicationTypeEquals(profiles[p.id].applicationType, caller.app)
    && ApplicationTypeEquals(profiles[p.id].applicationType, p.applicationType)
    && lib.valid(p) && lib.validAmong(p, profiles)
  }

  predicate Bound(ids: seq<string>, id: string) {
    id in ids
  }

  ghost predicate InUse(bindings: Bindings, id: string) {
    exists rule | rule in bindings :: Bound(bindings[rule], id)
  }

  ghost predicate MayDelete(profiles: map<string, Profile>, bindings: Bindings, caller: Caller, id: string) {
    id in profiles && ApplicationTypeEquals(caller.app, profiles[id].applicationType) && !InUse(bindings, id)
  }

  // ---- what one change does

  /** The merged profile after one more update: fields the update alters win, others stay. */
  function Merge(merged: Option<Profile>, was: Profile, now: Profile): Profile {
    match merged
    case None => now
    case Some(m) =>
      var named := if was.name != now.name then m.(name := now.name) else m;
      if was.jsonconfig != now.jsonconfig then named.(jsonconfig := now.jsonconfig) else named
  }

  function MergedSoFar(b: Batch, entityId: string): Option<Profile> {
    if entityId in b.merged then Some(b.merged[entityId]) else None
  }

  /** What a change leaves in the profile store, if it succeeds. */
  ghost function Outcome(b: Batch, lib: Library, bindings: Bindings, caller: Caller,
      c: Change): Option<map<string, Profile>> {
    match c.operation
    case Create(p) => if MayCreate(b.profiles, lib, caller, p) then Some(b.profiles[p.id := p]) else None
    case Update(was, now) =>
      var p := Merge(MergedSoFar(b, c.entityId), was, now);
      if MayUpdate(b.profiles, lib, caller, p) then Some(b.profiles[p.id := p]) else None
    case Delete(was) => if MayDelete(b.profiles, bindings, caller, was.id) then Some(b.profiles - {was.id}) else None
  }

  function Remember(b: Batch, c: Change): map<string, Profile> {
    match c.operation
    case Update(was, now) => var p := Merge(MergedSoFar(b, c.entityId), was, now); b.merged[p.id := p]
    case _ => b.merged
  }

  function ApprovedRecord(c: Change, caller: Caller): Change {
    c.(approvedUser := if c.approvedUser == "" then caller.user else c.approvedUser,
       applicationType := if c.applicationType == "" then caller.app else c.applicationType,
       updated := caller.now)
  }

  /** An approved record that does not validate is not stored, the change stays pending for now, and the
      caller is not told. */
  ghost function ProcessOne(b: Batch, lib: Library, bindings: Bindings, caller: Caller, c: Change): Batch {
    var outcome := Outcome(b, lib, bindings, caller, c);
    if outcome.None? then b.(merged := Remember(b, c), errors := b.errors + {c.id})
    else
      var stored := lib.validApproved(ApprovedRecord(c, caller));
      Batch(if stored then b.pending - {c.id} else b.pending,
            if stored then b.approved[c.id := ApprovedRecord(c, caller)] else b.approved,
            outcome.value, Remember(b, c), b.errors, b.touched + [c.entityId])
  }

  ghost function Process(b: Batch, lib: Library, bindings: Bindings, caller: Caller, cs: seq<Change>): Batch {
    if cs == [] then b
    else var n := |cs| - 1; ProcessOne(Process(b, lib, bindings, caller, cs[..n]), lib, bindings, caller, cs[n])
  }

  /** Cancelling: changes on a touched profile go, except those that have an error message. */
  function Kept(pending: map<string, Change>, touched: seq<string>, errors: set<string>): map<string, Change> {
    map k | k in pending && (pending[k].entityId !in touched || k in errors) :: pending[k]
  }

  function Start(pending: map<string, Change>, approved: map<string, Change>, profiles: map<string, Profile>): Batch {
    Batch(pending, approved, profiles, map[], {}, [])
  }

  // ---- the service

  class TelemetryTwoChangeService {
    var pending: map<string, Change>
    var approved: map<string, Change>
    var profiles: map<string, Profile>
    const bindings: Bindings
    const lib: Library

    constructor (bindings: Bindings, lib: Library)
      ensures this.bindings == bindings && this.lib == lib
      ensures pending == map[] && approved == map[] && profiles == map[]
    {
      this.bindings, this.lib := bindings, lib;
      pending, approved, profiles := map[], map[], map[];
    }

    /** The pending changes among the given keys, in order of their timestamps; ties in any order. */
    method GetTelemetryTwoChangesByIds(ids: seq<string>) returns (cs: seq<Change>)
      requires forall k | k in pending :: pending[k].id == k
      ensures forall c: Change :: c in cs <==> c.id in ids && c.id in pending && pending[c.id] == c
      ensures NoDup(ids) ==> NoDup(cs)
      ensures InTime(cs)
    {
      var found: seq<Change> := [];
      for n := 0 to |ids|
        invariant forall c: Change :: c in found <==> c.id in ids[..n] && c.id in pending && pending[c.id] == c
        invariant NoDup(ids) ==> NoDup(found)
      {
        assert ids[..n + 1] == ids[..n] + [ids[n]];
        if ids[n] in pending {
          found := found + [pending[ids[n]]];
        }
      }
      assert ids[..|ids|] == ids;
      var key := map c | c in found :: c.updated as real;
      cs := SortSlice(found, key);
      OrderedIsInTime(cs, key);
    }

    method DeleteTelemetryTwoProfile(caller: Caller, id: string) returns (ok: bool)
      modifies this`profiles
      ensures ok <==> MayDelete(old(profiles), bindings, caller, id)
      ensures profiles == if ok then old(profiles) - {id} else old(profiles)
    {
      if id !in profiles || !ApplicationTypeEquals(caller.app, profiles[id].applicationType) {
        return false;
      }
      var used := AnyValue(bindings, ids => Bound(ids, id));
      if used {
        return false;
      }
      profiles := profiles - {id};
      return true;
    }

    method ApproveTelemetryTwoChanges(caller: Caller, ids: seq<string>)
      returns (errors: set<string>, ghost cs: seq<Change>)
      requires forall k | k in pending :: pending[k].id == k
      modifies this
      ensures forall c: Change :: c in cs <==> c.id in ids && c.id in old(pending) && old(pending)[c.id] == c
      ensures (NoDup(ids) ==> NoDup(cs)) && InTime(cs)
      ensures var b := Process(Batch(old(pending), old(approved), old(profiles), map[], {}, []),
                               lib, bindings, caller, cs);
              && pending == Kept(b.pending, b.touched, b.errors)
              && approved == b.approved && profiles == b.profiles && errors == b.errors
    {
      var merged: map<string, Profile> := map[];
      var touched: seq<string> := [];
      errors := {};
      var changes := GetTelemetryTwoChangesByIds(ids);
      cs := changes;
      for n := 0 to |changes|
        invariant Batch(pending, approved, profiles, merged, errors, touched) ==
                  Process(Start(old(pending), old(approved), old(profiles)), lib, bindings, caller, cs[..n])
      {
        assert cs[..n + 1][..n] == cs[..n];
        var c := changes[n];
        var ok;
        ok, merged := ApplyOne(caller, c, merged);
        if ok {
          touched := touched + [c.entityId];
          SaveToApprovedAndCleanUp(caller, c);
        } else {
          errors := errors + {c.id};
        }
      }
      assert cs[..|cs|] == cs;
      CancelByEntityIds(touched, errors);
    }

    method ApplyOne(caller: Caller, c: Change, merged: map<string, Profile>)
      returns (ok: bool, now: map<string, Profile>)
      modifies this`profiles
      ensures forall b: Batch | b.profiles == old(profiles) && b.merged == merged ::
                && now == Remember(b, c)
                && ok == Outcome(b, lib, bindings, caller, c).Some?
                && profiles == if ok then Outcome(b, lib, bindings, caller, c).value else b.profiles
    {
      hide MayCreate, MayUpdate, MayDelete;
      now := merged;
      match c.operation {
        case Create(p) =>
          ok := MayCreate(profiles, lib, caller, p);
          if ok {
            profiles := profiles[p.id := p];
          }
        case Update(was, changed) =>
          var p := Merge(if c.entityId in merged then Some(merged[c.entityId]) else None, was, changed);
          now := merged[p.id := p];
          ok := MayUpdate(profiles, lib, caller, p);
          if ok {
            profiles := profiles[p.id := p];
          }
        case Delete(was) =>
          ok := DeleteTelemetryTwoProfile(caller, was.id);
      }
    }

    method SaveToApprovedAndCleanUp(caller: Caller, c: Change)
      modifies this`approved, this`pending
      ensures var stored := lib.validApproved(ApprovedRecord(c, caller));
              && pending == (if stored then old(pending) - {c.id} else old(pending))
              && approved == (if stored then old(approved)[c.id := ApprovedRecord(c, caller)] else old(approved))
    {
      var record := ApprovedRecord(c, caller);
      if lib.validApproved(record) {
        approved := approved[c.id := record];
        pending := pending - {c.id};
      }
    }

    method CancelByEntityIds(entityIds: seq<string>, excluded: set<string>)
      modifies this`pending
      ensures pending == Kept(old(pending), entityIds, excluded)
    {
      for n := 0 to |entityIds|
        invariant pending == Kept(old(pending), entityIds[..n], excluded)
      {
        assert entityIds[..n + 1] == entityIds[..n] + [entityIds[n]];
        CancelByEntityId(entityIds[n], excluded);
      }
      assert entityIds[..|entityIds|] == entityIds;
    }

    method CancelByEntityId(entityId: string, excluded: set<string>)
      modifies this`pending
      ensures pending == Kept(old(pending), [entityId], excluded)
    {
      var before := pending;
      var keys := ListKeys(pending);
      for m := 0 to |keys|
        invariant pending == map k | k in before &&
            (before[k].entityId != entityId || k in excluded || k !in keys[..m]) :: before[k]
      {
        if before[keys[m]].entityId == entityId && keys[m] !in excluded {
          pending := pending - {keys[m]};
        }
      }
      assert keys[..|keys|] == keys;
    }
  }

  ghost predicate InTime(cs: seq<Change>) {
    forall i, j :: 0 <= i < j < |cs| ==> cs[i].updated <= cs[j].updated
  }

  lemma OrderedIsInTime(cs: seq<Change>, key: map<Change, real>)
    requires forall c | c in cs :: c in key && key[c] == c.updated as real
    requires Ordered(cs, key)
    ensures InTime(cs)
  {
    forall i, j | 0 <= i < j < |cs| ensures cs[i].updated <= cs[j].updated {
      assert cs[i] in cs && cs[j] in cs && key[cs[i]] <= key[cs[j]];
    }
  }

  // ---- when each operation goes through, and what it leaves

  /** Both stores of changes, the errors and the touched profiles after one change: the record that is filed names
      the caller where the change names nobody, and bears the caller's time. */
  lemma BooksOfOne(t: Batch, lib: Library, bindings: Bindings, caller: Caller, c: Change)
    requires c.id !in t.errors
    ensures var u := ProcessOne(t, lib, bindings, caller, c);
            var record := Change(c.id, c.entityId, caller.now, c.operation,
                if c.applicationType == "" then caller.app else c.applicationType, c.author,
                if c.approvedUser == "" then caller.user else c.approvedUser);
            if c.id in u.errors then
              u.errors == t.errors + {c.id} && (u.touched, u.pending, u.approved) == (t.touched, t.pending, t.approved)
            else
              && u.errors == t.errors && u.touched == t.touched + [c.entityId]
              && if lib.validApproved(record)
                 then u.pending == t.pending - {c.id} && u.approved == t.approved[c.id := record]
                 else (u.pending, u.approved) == (t.pending, t.approved)
  {
    hide Outcome, Remember;
  }

  lemma CreateDoes(t: Batch, lib: Library, bindings: Bindings, caller: Caller, c: Change, p: Profile)
    requires c.id !in t.errors && c.operation == Create(p)
    ensures var u := ProcessOne(t, lib, bindings, caller, c);
            && (c.id !in u.errors <==>
                  && (p.id in t.profiles ==>
                        && ApplicationTypeEquals(t.profiles[p.id].applicationType, p.applicationType)
                        && !ApplicationTypeEquals(t.profiles[p.id].applicationType, caller.app))
                  && lib.valid(p) && lib.validAmong(p, t.profiles))
            && u.profiles == (if c.id in u.errors then t.profiles else t.profiles[p.id := p])
            && u.merged == t.merged
  {
  }

  /** An update is laid over the merged profile of its entity, if there is one, field by field; the merge is
      remembered even when it cannot be stored. */
  lemma UpdateDoes(t: Batch, lib: Library, bindings: Bindings, caller: Caller, c: Change, was: Profile, now: Profile)
    requires c.id !in t.errors && c.operation == Update(was, now)
    ensures var u := ProcessOne(t, lib, bindings, caller, c);
            var m := if c.entityId in t.merged then t.merged[c.entityId] else now;
            var p := Profile(m.id, if was.name != now.name then now.name else m.name,
                if was.jsonconfig != now.jsonconfig then now.jsonconfig else m.jsonconfig, m.applicationType);
            && (c.id !in u.errors <==>
                  && p.id != "" && p.id in t.profiles
                  && ApplicationTypeEquals(t.profiles[p.id].applicationType, caller.app)
                  && ApplicationTypeEquals(t.profiles[p.id].applicationType, p.applicationType)
                  && lib.valid(p) && lib.validAmong(p, t.profiles))
            && u.profiles == (if c.id in u.errors then t.profiles else t.profiles[p.id := p])
            && u.merged == t.merged[p.id := p]
  {
  }

  lemma DeleteDoes(t: Batch, lib: Library, bindings: Bindings, caller: Caller, c: Change, was: Profile)
    requires c.id !in t.errors && c.operation == Delete(was)
    ensures var u := ProcessOne(t, lib, bindings, caller, c);
            && (c.id !in u.errors <==>
                  && was.id in t.profiles && ApplicationTypeEquals(caller.app, t.profiles[was.id].applicationType)
                  && forall rule | rule in bindings :: was.id !in bindings[rule])
            && u.profiles.Keys == (if c.id in u.errors then t.profiles.Keys else t.profiles.Keys - {was.id})
            && (forall id | id in u.profiles :: u.profiles[id] == t.profiles[id])
            && u.merged == t.merged
  {
    if rule :| rule in bindings && was.id in bindings[rule] {
      assert Bound(bindings[rule], was.id);
    }
  }

  // ---- conservation

  /** The listed changes: pending records, each once. */
  ghost predicate Listed(pending: map<string, Change>, cs: seq<Change>) {
    && (forall c | c in cs :: c.id in pending && pending[c.id] == c)
    && (forall i, j :: 0 <= i < j < |cs| ==> cs[i].id != cs[j].id)
  }

  /** The n-th change goes through. */
  ghost predicate Succeeds(b: Batch, lib: Library, bindings: Bindings, caller: Caller, cs: seq<Change>, n: nat)
    requires n < |cs|
  {
    Outcome(Process(b, lib, bindings, caller, cs[..n]), lib, bindings, caller, cs[n]).Some?
  }

  lemma ProcessNext(b: Batch, lib: Library, bindings: Bindings, caller: Caller, cs: seq<Change>, n: nat)
    requires n < |cs|
    ensures Process(b, lib, bindings, caller, cs[..n + 1]) ==
            ProcessOne(Process(b, lib, bindings, caller, cs[..n]), lib, bindings, caller, cs[n])
  {
    assert cs[..n + 1][..n] == cs[..n];
  }

  ghost predicate Files(b: Batch, lib: Library, bindings: Bindings, caller: Caller, cs: seq<Change>, n: nat)
    requires n < |cs|
  {
    Succeeds(b, lib, bindings, caller, cs, n) && lib.validApproved(ApprovedRecord(cs[n], caller))
  }

  /** The failures among the first n changes, and the approved records they left. */
  ghost function Failures(b: Batch, lib: Library, bindings: Bindings, caller: Caller, cs: seq<Change>,
      n: nat): set<string>
    requires n <= |cs|
  {
    if n == 0 then {}
    else Failures(b, lib, bindings, caller, cs, n - 1) + if Succeeds(b, lib, bindings, caller, cs, n - 1) then {}
        else {cs[n - 1].id}
  }

  ghost function Records(b: Batch, lib: Library, bindings: Bindings, caller: Caller, cs: seq<Change>,
      n: nat): map<string, Change>
    requires n <= |cs|
  {
    if n == 0 then map[]
    else
      var r := Records(b, lib, bindings, caller, cs, n - 1);
      if Files(b, lib, bindings, caller, cs, n - 1) then r[cs[n - 1].id := ApprovedRecord(cs[n - 1], caller)] else r
  }

  lemma StartsAt(b: Batch, lib: Library, bindings: Bindings, caller: Caller, cs: seq<Change>)
    ensures Process(b, lib, bindings, caller, cs[..0]) == b
  {
    assert cs[..0] == [];
  }

  /** The books after the (n+1)-th change. */
  lemma BooksNext(b: Batch, lib: Library, bindings: Bindings, caller: Caller, cs: seq<Change>, n: nat)
    requires n < |cs|
    ensures var t, u := Process(b, lib, bindings, caller, cs[..n]), Process(b, lib, bindings, caller, cs[..n + 1]);
            var ok, files := Succeeds(b, lib, bindings, caller, cs, n), Files(b, lib, bindings, caller, cs, n);
            && u.errors == (if ok then t.errors else t.errors + {cs[n].id})
            && u.touched == (if ok then t.touched + [cs[n].entityId] else t.touched)
            && u.pending == (if files then t.pending - {cs[n].id} else t.pending)
            && u.approved == (if files then t.approved[cs[n].id := ApprovedRecord(cs[n], caller)] else t.approved)
  {
    hide Outcome, Remember, ApprovedRecord;
    ProcessNext(b, lib, bindings, caller, cs, n);
  }

  /** What the first n changes did to the books. */
  lemma {:induction false} Accounting(b: Batch, lib: Library, bindings: Bindings, caller: Caller, cs: seq<Change>,
      n: nat)
    requires n <= |cs| && b.errors == {} && b.touched == []
    ensures var t := Process(b, lib, bindings, caller, cs[..n]);
            && t.errors == Failures(b, lib, bindings, caller, cs, n)
            && t.pending == b.pending - Records(b, lib, bindings, caller, cs, n).Keys
            && t.approved == b.approved + Records(b, lib, bindings, caller, cs, n)
  {
    hide Process, Files, Succeeds, ApprovedRecord;
    if n == 0 {
      StartsAt(b, lib, bindings, caller, cs);
    } else {
      Accounting(b, lib, bindings, caller, cs, n - 1);
      BooksNext(b, lib, bindings, caller, cs, n - 1);
      var records, record := Records(b, lib, bindings, caller, cs, n - 1), ApprovedRecord(cs[n - 1], caller);
      FiledNext(b.pending, b.approved, records, cs[n - 1].id, record);
    }
  }

  lemma FiledNext(pending: map<string, Change>, approved: map<string, Change>, records: map<string, Change>,
      id: string, c: Change)
    ensures pending - records.Keys - {id} == pending - records[id := c].Keys
    ensures (approved + records)[id := c] == approved + records[id := c]
  {
  }

  /** The i-th change has this identifier and fails; it has this identifier and leaves a record. */
  ghost predicate FailsAt(b: Batch, lib: Library, bindings: Bindings, caller: Caller, cs: seq<Change>, i: nat,
      id: string) {
    i < |cs| && cs[i].id == id && !Succeeds(b, lib, bindings, caller, cs, i)
  }

  ghost predicate FilesAt(b: Batch, lib: Library, bindings: Bindings, caller: Caller, cs: seq<Change>, i: nat,
      id: string) {
    i < |cs| && cs[i].id == id && Files(b, lib, bindings, caller, cs, i)
  }

  lemma {:induction false} FailuresAre(b: Batch, lib: Library, bindings: Bindings, caller: Caller, cs: seq<Change>,
      n: nat, id: string)
    requires n <= |cs|
    ensures id in Failures(b, lib, bindings, caller, cs, n) <==>
            exists i: nat | i < n :: FailsAt(b, lib, bindings, caller, cs, i, id)
  {
    hide Succeeds;
    if n > 0 {
      FailuresAre(b, lib, bindings, caller, cs, n - 1, id);
      assert FailsAt(b, lib, bindings, caller, cs, n - 1, id) <==>
             cs[n - 1].id == id && !Succeeds(b, lib, bindings, caller, cs, n - 1);
    }
  }

  lemma {:induction false} RecordsAre(b: Batch, lib: Library, bindings: Bindings, caller: Caller, cs: seq<Change>,
      n: nat, id: string)
    requires n <= |cs|
    ensures id in Records(b, lib, bindings, caller, cs, n) <==>
            exists i: nat | i < n :: FilesAt(b, lib, bindings, caller, cs, i, id)
  {
    hide Files, ApprovedRecord;
    if n > 0 {
      RecordsAre(b, lib, bindings, caller, cs, n - 1, id);
      assert FilesAt(b, lib, bindings, caller, cs, n - 1, id) <==>
             cs[n - 1].id == id && Files(b, lib, bindings, caller, cs, n - 1);
    }
  }

  lemma {:induction false} RecordIs(b: Batch, lib: Library, bindings: Bindings, caller: Caller, cs: seq<Change>,
      n: nat, c: Change)
    requires n <= |cs| && forall i | 0 <= i < |cs| && cs[i].id == c.id :: cs[i] == c
    ensures c.id in Records(b, lib, bindings, caller, cs, n) ==>
            Records(b, lib, bindings, caller, cs, n)[c.id] == ApprovedRecord(c, caller)
  {
    hide Files, ApprovedRecord;
    if n > 0 {
      RecordIs(b, lib, bindings, caller, cs, n - 1, c);
    }
  }

  /** Some listed change on the profile went through. */
  ghost predicate Touches(b: Batch, lib: Library, bindings: Bindings, caller: Caller, cs: seq<Change>,
      entityId: string) {
    exists i: nat | i < |cs| :: Succeeds(b, lib, bindings, caller, cs, i) && cs[i].entityId == entityId
  }

  lemma {:induction false} TouchedAre(b: Batch, lib: Library, bindings: Bindings, caller: Caller, cs: seq<Change>,
      n: nat, entityId: string)
    requires n <= |cs| && b.touched == []
    ensures entityId in Process(b, lib, bindings, caller, cs[..n]).touched <==>
            exists i: nat | i < n :: Succeeds(b, lib, bindings, caller, cs, i) && cs[i].entityId == entityId
  {
    hide Process, Succeeds;
    if n == 0 {
      StartsAt(b, lib, bindings, caller, cs);
    } else {
      TouchedAre(b, lib, bindings, caller, cs, n - 1, entityId);
      BooksNext(b, lib, bindings, caller, cs, n - 1);
    }
  }

  /** The stores after the whole batch, cancelling included. */
  ghost function After(b: Batch, lib: Library, bindings: Bindings, caller: Caller, cs: seq<Change>): Batch {
    var t := Process(b, lib, bindings, caller, cs);
    t.(pending := Kept(t.pending, t.touched, t.errors))
  }

  /** The listed changes are pending records; a change may be listed more than once. */
  ghost predicate Mentioned(pending: map<string, Change>, cs: seq<Change>) {
    forall c | c in cs :: c.id in pending && pending[c.id] == c
  }

  /** What becomes of a listed change, in any batch: it has an error exactly when it failed at some occurrence,
      an approved record exactly when it left one at some occurrence, and is still pending exactly when it
      failed somewhere and left no record anywhere. */
  lemma EveryListedChange(b: Batch, lib: Library, bindings: Bindings, caller: Caller, cs: seq<Change>, c: Change)
    requires b.errors == {} && b.touched == [] && Mentioned(b.pending, cs) && c in cs
    requires b.pending.Keys !! b.approved.Keys
    ensures var t := After(b, lib, bindings, caller, cs);
            var fails := exists i: nat :: FailsAt(b, lib, bindings, caller, cs, i, c.id);
            var files := exists i: nat :: FilesAt(b, lib, bindings, caller, cs, i, c.id);
            && (c.id in t.errors <==> fails)
            && (c.id in t.approved <==> files) && (files ==> t.approved[c.id] == ApprovedRecord(c, caller))
            && (c.id in t.pending <==> fails && !files) && (c.id in t.pending ==> t.pending[c.id] == c)
  {
    hide Process, ApprovedRecord, Outcome, Succeeds, Files;
    assert cs[..|cs|] == cs;
    Accounting(b, lib, bindings, caller, cs, |cs|);
    FailuresAre(b, lib, bindings, caller, cs, |cs|, c.id);
    RecordsAre(b, lib, bindings, caller, cs, |cs|, c.id);
    RecordIs(b, lib, bindings, caller, cs, |cs|, c);
    TouchedAre(b, lib, bindings, caller, cs, |cs|, c.entityId);
    var i: nat :| i < |cs| && cs[i] == c;
    assert FailsAt(b, lib, bindings, caller, cs, i, c.id) || Succeeds(b, lib, bindings, caller, cs, i);
  }

  /** A change is approved and yet reported as failed exactly when some occurrence of it fails and some
      occurrence leaves an approved record. */
  lemma ApprovedYetFailed(b: Batch, lib: Library, bindings: Bindings, caller: Caller, cs: seq<Change>, id: string)
    requires b.errors == {} && b.touched == [] && id !in b.approved
    ensures var t := After(b, lib, bindings, caller, cs);
            id in t.errors && id in t.approved <==>
            && (exists i: nat :: FailsAt(b, lib, bindings, caller, cs, i, id))
            && (exists i: nat :: FilesAt(b, lib, bindings, caller, cs, i, id))
  {
    hide Process, ApprovedRecord, Outcome, Succeeds, Files;
    assert cs[..|cs|] == cs;
    Accounting(b, lib, bindings, caller, cs, |cs|);
    FailuresAre(b, lib, bindings, caller, cs, |cs|, id);
    RecordsAre(b, lib, bindings, caller, cs, |cs|, id);
  }

  /** With distinct changes every one is accounted for. If it failed it is still pending, unchanged, with an
      error message and no approved record. If it went through and its approved record validates, it is
      approved, no longer pending and has no error. The only way to lose a change is an approved record
      that does not validate: then it is neither pending nor approved, and no error is reported. */
  lemma ListedChangesAreConserved(b: Batch, lib: Library, bindings: Bindings, caller: Caller, cs: seq<Change>, i: nat)
    requires b.errors == {} && b.touched == [] && Listed(b.pending, cs) && b.pending.Keys !! b.approved.Keys && i < |cs|
    ensures var t, id := After(b, lib, bindings, caller, cs), cs[i].id;
            if !Succeeds(b, lib, bindings, caller, cs, i) then
              id in t.errors && id in t.pending && t.pending[id] == cs[i] && id !in t.approved
            else
              && id !in t.errors && id !in t.pending
              && (id in t.approved <==> lib.validApproved(ApprovedRecord(cs[i], caller)))
              && (id in t.approved ==> t.approved[id] == ApprovedRecord(cs[i], caller))
  {
    hide Process, ApprovedRecord, Outcome, Succeeds, After;
    EveryListedChange(b, lib, bindings, caller, cs, cs[i]);
    assert FailsAt(b, lib, bindings, caller, cs, i, cs[i].id) <==> !Succeeds(b, lib, bindings, caller, cs, i);
    assert FilesAt(b, lib, bindings, caller, cs, i, cs[i].id) <==> Files(b, lib, bindings, caller, cs, i);
    assert forall k: nat | k < |cs| && cs[k].id == cs[i].id :: k == i;
  }

  /** An input: a create that goes through and whose approved record does not validate. The profile is stored, the
      change is gone, and no error is reported. */
  lemma SilentlyLost(lib: Library, bindings: Bindings, caller: Caller, p: Profile, c: Change)
    requires c.operation == Create(p) && c.entityId == p.id && lib.valid(p) && lib.validAmong(p, map[])
    requires !lib.validApproved(ApprovedRecord(c, caller))
    ensures var t := After(Start(map[c.id := c], map[], map[]), lib, bindings, caller, [c]);
            p.id in t.profiles && c.id !in t.pending && c.id !in t.approved && c.id !in t.errors
  {
    var b := Start(map[c.id := c], map[], map[]);
    StartsAt(b, lib, bindings, caller, [c]);
    ProcessNext(b, lib, bindings, caller, [c], 0);
    assert [c][..1] == [c];
  }

  /** A pending change that is not listed survives exactly when no listed change on its profile went through. */
  lemma UnlistedChangeSurvives(b: Batch, lib: Library, bindings: Bindings, caller: Caller, cs: seq<Change>, id: string)
    requires b.errors == {} && b.touched == []
    requires id in b.pending && forall i | 0 <= i < |cs| :: cs[i].id != id
    ensures var t := After(b, lib, bindings, caller, cs);
            && (id in t.pending <==> !Touches(b, lib, bindings, caller, cs, b.pending[id].entityId))
            && (id in t.pending ==> t.pending[id] == b.pending[id])
            && (id in t.approved <==> id in b.approved)
  {
    hide Process, Outcome;
    assert cs[..|cs|] == cs;
    Accounting(b, lib, bindings, caller, cs, |cs|);
    FailuresAre(b, lib, bindings, caller, cs, |cs|, id);
    RecordsAre(b, lib, bindings, caller, cs, |cs|, id);
    TouchedAre(b, lib, bindings, caller, cs, |cs|, b.pending[id].entityId);
  }

  /** An input for the above: a create listed twice. The second time round its profile exists. */
  lemma ListedTwice(lib: Library, bindings: Bindings, caller: Caller, p: Profile, c: Change)
    requires c.operation == Create(p) && c.entityId == p.id && lib.valid(p) && lib.validAmong(p, map[])
    requires lib.validApproved(ApprovedRecord(c, caller)) && ApplicationTypeEquals(p.applicationType, caller.app)
    ensures var t := After(Start(map[c.id := c], map[], map[]), lib, bindings, caller, [c, c]);
            c.id in t.errors && c.id in t.approved && c.id !in t.pending
  {
    var b := Start(map[c.id := c], map[], map[]);
    var t := ProcessOne(b, lib, bindings, caller, c);
    StartsAt(b, lib, bindings, caller, [c, c]);
    ProcessNext(b, lib, bindings, caller, [c, c], 0);
    ProcessNext(b, lib, bindings, caller, [c, c], 1);
    assert [c, c][..2] == [c, c];
  }

  // ---- runs of batches

  /** The stores between requests. A proposal comes with a new identifier. */
  datatype Stores = Stores(pending: map<string, Change>, approved: map<string, Change>, profiles: map<string, Profile>)

  datatype Event = Propose(change: Change) | ApproveAll(caller: Caller, changes: seq<Change>)

  ghost function Next(s: Stores, lib: Library, bindings: Bindings, event: Event): Stores {
    match event
    case Propose(c) => s.(pending := s.pending[c.id := c])
    case ApproveAll(caller, cs) =>
      var t := After(Start(s.pending, s.approved, s.profiles), lib, bindings, caller, cs);
      Stores(t.pending, t.approved, t.profiles)
  }

  ghost function RunAll(s: Stores, lib: Library, bindings: Bindings, events: seq<Event>): Stores {
    if events == [] then s
    else Next(RunAll(s, lib, bindings, events[..|events| - 1]), lib, bindings, events[|events| - 1])
  }

  /** A run is its events one after the other; every batch starts with nothing merged, failed or touched. */
  lemma RunNext(s: Stores, lib: Library, bindings: Bindings, events: seq<Event>, event: Event)
    ensures RunAll(s, lib, bindings, []) == s
    ensures var r, t := RunAll(s, lib, bindings, events), RunAll(s, lib, bindings, events + [event]);
            match event
            case Propose(c) => t == Stores(r.pending[c.id := c], r.approved, r.profiles)
            case ApproveAll(caller, cs) =>
              var b := After(Batch(r.pending, r.approved, r.profiles, map[], {}, []), lib, bindings, caller, cs);
              t == Stores(b.pending, b.approved, b.profiles)
  {
    hide After;
    assert (events + [event])[..|events|] == events;
  }

  predicate NewId(s: Stores, event: Event) {
    event.Propose? ==> event.change.id !in s.pending && event.change.id !in s.approved
  }

  /** Pending changes carry their keys, and none is approved as well: what conservation asks of the start of a
      batch. */
  ghost predicate InOrder(s: Stores) {
    s.pending.Keys !! s.approved.Keys && forall k | k in s.pending :: s.pending[k].id == k
  }

  lemma NextKeepsOrder(s: Stores, lib: Library, bindings: Bindings, event: Event)
    requires InOrder(s) && NewId(s, event)
    ensures InOrder(Next(s, lib, bindings, event))
  {
    hide Process, Records, Failures;
    if event.ApproveAll? {
      var b, cs := Start(s.pending, s.approved, s.profiles), event.changes;
      assert cs[..|cs|] == cs;
      Accounting(b, lib, bindings, event.caller, cs, |cs|);
    }
  }

  /** Over every run of proposals and batches no change is both pending and approved, so conservation holds for
      every batch of the run. */
  lemma {:induction false} RunKeepsOrder(s: Stores, lib: Library, bindings: Bindings, events: seq<Event>)
    requires InOrder(s)
    requires forall n | 0 <= n < |events| :: NewId(RunAll(s, lib, bindings, events[..n]), events[n])
    ensures InOrder(RunAll(s, lib, bindings, events))
  {
    hide InOrder, NewId, Next;
    if events != [] {
      var n := |events| - 1;
      forall m | 0 <= m < n ensures NewId(RunAll(s, lib, bindings, events[..n][..m]), events[..n][m]) {
        assert events[..n][..m] == events[..m];
      }
      RunKeepsOrder(s, lib, bindings, events[..n]);
      NextKeepsOrder(RunAll(s, lib, bindings, events[..n]), lib, bindings, events[n]);
    }
  }

  // ---- bound profiles

  /** No batch removes a profile some telemetry rule is bound to. */
  lemma {:induction false} BatchKeepsBound(b: Batch, lib: Library, bindings: Bindings, caller: Caller,
      cs: seq<Change>, id: string)
    requires InUse(bindings, id) && id in b.profiles
    ensures id in Process(b, lib, bindings, caller, cs).profiles
  {
    if cs != [] {
      BatchKeepsBound(b, lib, bindings, caller, cs[..|cs| - 1], id);
    }
  }

  // ---- merging updates

  predicate AboutOneEntity(c: Change) {
    match c.operation
    case Create(p) => p.id == c.entityId
    case Update(was, now) => was.id == c.entityId && now.id == c.entityId
    case Delete(was) => was.id == c.entityId
  }

  function ChangesOn(cs: seq<Change>, entityId: string): (r: seq<Change>)
    ensures forall c | c in r :: c in cs && c.entityId == entityId
  {
    if cs == [] then []
    else
      var n := |cs| - 1;
      if cs[n].entityId == entityId then ChangesOn(cs[..n], entityId) + [cs[n]] else ChangesOn(cs[..n], entityId)
  }

  predicate AllUpdates(us: seq<Change>) {
    forall u | u in us :: u.operation.Update?
  }

  /** Merging a list of updates to one profile. */
  function MergeAll(us: seq<Change>): Option<Profile>
    requires AllUpdates(us)
  {
    if us == [] then None
    else
      var n := |us| - 1;
      Some(Merge(MergeAll(us[..n]), us[n].operation.oldEntity, us[n].operation.newEntity))
  }

  ghost predicate MergedByKey(b: Batch) {
    forall k | k in b.merged :: b.merged[k].id == k
  }

  lemma MergeNext(us: seq<Change>, u: Change)
    requires AllUpdates(us) && u.operation.Update?
    ensures AllUpdates(us + [u])
    ensures MergeAll(us + [u]) == Some(Merge(MergeAll(us), u.operation.oldEntity, u.operation.newEntity))
  {
    assert (us + [u])[..|us|] == us;
  }

  lemma RememberNext(t: Batch, lib: Library, bindings: Bindings, caller: Caller, c: Change, entityId: string)
    requires MergedByKey(t) && AboutOneEntity(c)
    ensures var u := ProcessOne(t, lib, bindings, caller, c);
            && MergedByKey(u)
            && MergedSoFar(u, entityId) ==
               if c.entityId == entityId && c.operation.Update?
               then Some(Merge(MergedSoFar(t, entityId), c.operation.oldEntity, c.operation.newEntity))
               else MergedSoFar(t, entityId)
  {
  }

  /** The updates among them. */
  function UpdatesOn(cs: seq<Change>, entityId: string): (r: seq<Change>)
    ensures forall c | c in r :: c in cs && c.entityId == entityId && c.operation.Update?
  {
    if cs == [] then []
    else
      var n := |cs| - 1;
      if cs[n].entityId == entityId && cs[n].operation.Update? then UpdatesOn(cs[..n], entityId) + [cs[n]]
      else UpdatesOn(cs[..n], entityId)
  }

  lemma {:induction false} OnlyUpdates(cs: seq<Change>, entityId: string)
    requires AllUpdates(ChangesOn(cs, entityId))
    ensures UpdatesOn(cs, entityId) == ChangesOn(cs, entityId)
  {
    if cs != [] {
      ChangesOnNext(cs, entityId);
      OnlyUpdates(cs[..|cs| - 1], entityId);
    }
  }

  lemma ChangesOnNext(cs: seq<Change>, entityId: string)
    requires cs != []
    ensures var n := |cs| - 1;
            ChangesOn(cs, entityId) == if cs[n].entityId == entityId then ChangesOn(cs[..n], entityId) + [cs[n]]
                else ChangesOn(cs[..n], entityId)
    ensures AllUpdates(ChangesOn(cs, entityId)) ==> AllUpdates(ChangesOn(cs[..|cs| - 1], entityId))
    ensures AllUpdates(ChangesOn(cs, entityId)) && cs[|cs| - 1].entityId == entityId ==> cs[|cs| - 1].operation.Update?
  {
    var n := |cs| - 1;
    if cs[n].entityId == entityId {
      assert cs[n] in ChangesOn(cs, entityId);
    }
  }

  /** What is merged for a profile is the merge of its own updates: changes to other profiles, creates and deletes
      neither read nor write it. */
  lemma {:induction false} MergedIs(b: Batch, lib: Library, bindings: Bindings, caller: Caller, cs: seq<Change>,
      entityId: string)
    requires b.merged == map[] && forall c | c in cs :: AboutOneEntity(c)
    ensures var t := Process(b, lib, bindings, caller, cs);
            MergedByKey(t) && MergedSoFar(t, entityId) == MergeAll(UpdatesOn(cs, entityId))
  {
    if cs != [] {
      hide ProcessOne, MergedSoFar, Merge, AllUpdates, MergeAll, AboutOneEntity, MergedByKey;
      var n := |cs| - 1;
      assert cs[n] in cs;
      MergedIs(b, lib, bindings, caller, cs[..n], entityId);
      RememberNext(Process(b, lib, bindings, caller, cs[..n]), lib, bindings, caller, cs[n], entityId);
      if cs[n].entityId == entityId && cs[n].operation.Update? {
        MergeNext(UpdatesOn(cs[..n], entityId), cs[n]);
      }
    }
  }

  /** When only updates to a profile are listed and all of them go through, the batch leaves the merge of
      them, in the order they were carried out. */
  lemma {:induction false} BatchLeavesMerge(b: Batch, lib: Library, bindings: Bindings, caller: Caller,
      cs: seq<Change>, entityId: string)
    requires b.merged == map[] && forall c | c in cs :: AboutOneEntity(c)
    requires AllUpdates(ChangesOn(cs, entityId)) && ChangesOn(cs, entityId) != []
    requires forall i: nat | i < |cs| && cs[i].entityId == entityId :: Succeeds(b, lib, bindings, caller, cs, i)
    ensures var t := Process(b, lib, bindings, caller, cs);
            entityId in t.profiles && Some(t.profiles[entityId]) == MergeAll(ChangesOn(cs, entityId))
  {
    assert cs != [];
    hide ProcessOne, MergedSoFar, Merge, Outcome, ChangesOn, UpdatesOn, AllUpdates, MergeAll, AboutOneEntity;
    hide MergedByKey, Process;
    var n := |cs| - 1;
    assert cs[n] in cs;
    var front := cs[..n];
    ChangesOnNext(cs, entityId);
    MergedIs(b, lib, bindings, caller, front, entityId);
    OnlyUpdates(front, entityId);
    var t := Process(b, lib, bindings, caller, front);
    ProcessNext(b, lib, bindings, caller, cs, n);
    assert cs[..n + 1] == cs;
    if cs[n].entityId == entityId {
      assert Succeeds(b, lib, bindings, caller, cs, n);
      UpdateStores(t, lib, bindings, caller, cs[n]);
      MergeNext(ChangesOn(front, entityId), cs[n]);
    } else {
      forall i: nat | i < n && front[i].entityId == entityId ensures Succeeds(b, lib, bindings, caller, front, i) {
        assert front[..i] == cs[..i] && Succeeds(b, lib, bindings, caller, cs, i);
      }
      BatchLeavesMerge(b, lib, bindings, caller, front, entityId);
      KeepsOthers(t, lib, bindings, caller, cs[n], entityId);
    }
  }

  lemma UpdateStores(t: Batch, lib: Library, bindings: Bindings, caller: Caller, c: Change)
    requires c.operation.Update? && AboutOneEntity(c) && MergedByKey(t) && Outcome(t, lib, bindings, caller, c).Some?
    ensures var u := ProcessOne(t, lib, bindings, caller, c);
            c.entityId in u.profiles &&
            u.profiles[c.entityId] == Merge(MergedSoFar(t, c.entityId), c.operation.oldEntity, c.operation.newEntity)
  {
  }

  lemma KeepsOthers(t: Batch, lib: Library, bindings: Bindings, caller: Caller, c: Change, entityId: string)
    requires AboutOneEntity(c) && c.entityId != entityId && MergedByKey(t)
    ensures var u := ProcessOne(t, lib, bindings, caller, c);
            (entityId in u.profiles <==> entityId in t.profiles) && (entityId in t.profiles ==>
                u.profiles[entityId] == t.profiles[entityId])
  {
  }

  // ---- what a batch leaves in the profile store

  /** A listed change has an error exactly when it failed. */
  lemma ErrorMeansFailed(b: Batch, lib: Library, bindings: Bindings, caller: Caller, cs: seq<Change>, i: nat)
    requires b.errors == {} && b.touched == [] && Listed(b.pending, cs) && i < |cs|
    ensures cs[i].id in After(b, lib, bindings, caller, cs).errors <==> !Succeeds(b, lib, bindings, caller, cs, i)
  {
    hide Process, Succeeds;
    assert cs[..|cs|] == cs;
    Accounting(b, lib, bindings, caller, cs, |cs|);
    FailuresAre(b, lib, bindings, caller, cs, |cs|, cs[i].id);
    assert forall k: nat | k < |cs| && cs[k].id == cs[i].id :: k == i;
    assert FailsAt(b, lib, bindings, caller, cs, i, cs[i].id) <==> !Succeeds(b, lib, bindings, caller, cs, i);
  }

  ghost predicate SameAt(s: map<string, Profile>, t: map<string, Profile>, id: string) {
    (id in s <==> id in t) && (id in s ==> s[id] == t[id])
  }

  lemma FailureKeeps(t: Batch, lib: Library, bindings: Bindings, caller: Caller, c: Change)
    requires Outcome(t, lib, bindings, caller, c).None?
    ensures ProcessOne(t, lib, bindings, caller, c).profiles == t.profiles
  {
  }

  /** From the n-th change on, nothing that goes through is about the profile. */
  lemma {:induction false} LeftAlone(b: Batch, lib: Library, bindings: Bindings, caller: Caller, cs: seq<Change>,
      n: nat, m: nat, id: string)
    requires b.merged == map[] && (forall c | c in cs :: AboutOneEntity(c)) && n <= m <= |cs|
    requires forall j: nat | n <= j < m && cs[j].entityId == id :: !Succeeds(b, lib, bindings, caller, cs, j)
    ensures SameAt(Process(b, lib, bindings, caller, cs[..m]).profiles,
                   Process(b, lib, bindings, caller, cs[..n]).profiles, id)
  {
    hide Process, ProcessOne, AboutOneEntity, MergedByKey, Outcome, UpdatesOn, MergeAll, MergedSoFar;
    if n < m {
      var k := m - 1;
      var t := Process(b, lib, bindings, caller, cs[..k]);
      assert cs[k] in cs;
      LeftAlone(b, lib, bindings, caller, cs, n, k, id);
      ProcessNext(b, lib, bindings, caller, cs, k);
      if cs[k].entityId == id {
        FailureKeeps(t, lib, bindings, caller, cs[k]);
      } else {
        MergedIs(b, lib, bindings, caller, cs[..k], id);
        KeepsOthers(t, lib, bindings, caller, cs[k], id);
      }
    }
  }

  /** What a change leaves for its profile when it goes through. */
  lemma SuccessLeaves(t: Batch, lib: Library, bindings: Bindings, caller: Caller, c: Change)
    requires AboutOneEntity(c) && MergedByKey(t) && Outcome(t, lib, bindings, caller, c).Some?
    ensures var id, after := c.entityId, ProcessOne(t, lib, bindings, caller, c).profiles;
            match c.operation
            case Create(p) => id in after && after[id] == p
            case Update(was, now) => id in after && after[id] == Merge(MergedSoFar(t, id), was, now)
            case Delete(was) => id !in after
  {
  }

  /** The last listed change of a profile that has no error decides what the batch leaves: a create its profile, a
      delete nothing, an update the merge of all updates of the profile up to there. */
  lemma LastChangeDecides(b: Batch, lib: Library, bindings: Bindings, caller: Caller, cs: seq<Change>, i: nat)
    requires b.merged == map[] && b.errors == {} && b.touched == [] && Listed(b.pending, cs)
    requires (forall c | c in cs :: AboutOneEntity(c)) && i < |cs|
    ensures var t, id := After(b, lib, bindings, caller, cs), cs[i].entityId;
            cs[i].id !in t.errors && (forall j | i < j < |cs| && cs[j].entityId == id :: cs[j].id in t.errors) ==>
              match cs[i].operation
              case Create(p) => id in t.profiles && t.profiles[id] == p
              case Update(was, now) =>
                id in t.profiles && Some(t.profiles[id]) == MergeAll(UpdatesOn(cs[..i + 1], id))
              case Delete(was) => id !in t.profiles
  {
    hide Process, ProcessOne, Outcome, AboutOneEntity, MergedByKey, MergeAll, MergedSoFar, Merge, Listed;
    var id, t := cs[i].entityId, Process(b, lib, bindings, caller, cs[..i]);
    forall j: nat | j < |cs|
      ensures cs[j].id in After(b, lib, bindings, caller, cs).errors <==> !Succeeds(b, lib, bindings, caller, cs, j)
    {
      ErrorMeansFailed(b, lib, bindings, caller, cs, j);
    }
    if Succeeds(b, lib, bindings, caller, cs, i) &&
       forall j: nat | i < j < |cs| && cs[j].entityId == id :: !Succeeds(b, lib, bindings, caller, cs, j)
    {
      assert cs[i] in cs && cs[..|cs|] == cs && cs[..i + 1] == cs[..i] + [cs[i]];
      MergedIs(b, lib, bindings, caller, cs[..i], id);
      ProcessNext(b, lib, bindings, caller, cs, i);
      SuccessLeaves(t, lib, bindings, caller, cs[i]);
      LeftAlone(b, lib, bindings, caller, cs, i + 1, |cs|, id);
      if cs[i].operation.Update? {
        MergeNext(UpdatesOn(cs[..i], id), cs[i]);
      }
    }
  }

  /** A profile that no listed change without an error is about stays as it is, or stays absent. */
  lemma OthersUnchanged(b: Batch, lib: Library, bindings: Bindings, caller: Caller, cs: seq<Change>, id: string)
    requires b.merged == map[] && b.errors == {} && b.touched == [] && Listed(b.pending, cs)
    requires forall c | c in cs :: AboutOneEntity(c)
    ensures var t := After(b, lib, bindings, caller, cs);
            (forall j | 0 <= j < |cs| && cs[j].entityId == id :: cs[j].id in t.errors) ==>
              (id in t.profiles <==> id in b.profiles) && (id in b.profiles ==> t.profiles[id] == b.profiles[id])
  {
    hide Process, Succeeds, AboutOneEntity, Listed;
    forall j: nat | j < |cs|
      ensures cs[j].id in After(b, lib, bindings, caller, cs).errors <==> !Succeeds(b, lib, bindings, caller, cs, j)
    {
      ErrorMeansFailed(b, lib, bindings, caller, cs, j);
    }
    if forall j: nat | j < |cs| && cs[j].entityId == id :: !Succeeds(b, lib, bindings, caller, cs, j) {
      assert cs[..|cs|] == cs;
      StartsAt(b, lib, bindings, caller, cs);
      LeftAlone(b, lib, bindings, caller, cs, 0, |cs|, id);
    }
  }

  /** Only a create brings in a profile. */
  lemma {:induction false} StaysGone(b: Batch, lib: Library, bindings: Bindings, caller: Caller, cs: seq<Change>,
      n: nat, m: nat, id: string)
    requires n <= m <= |cs| && id !in Process(b, lib, bindings, caller, cs[..n]).profiles
    requires forall j: nat | n <= j < m && cs[j].operation.Create? && cs[j].operation.newEntity.id == id ::
               !Succeeds(b, lib, bindings, caller, cs, j)
    ensures id !in Process(b, lib, bindings, caller, cs[..m]).profiles
  {
    hide Process, MayCreate, MayDelete, Merge;
    if n < m {
      StaysGone(b, lib, bindings, caller, cs, n, m - 1, id);
      ProcessNext(b, lib, bindings, caller, cs, m - 1);
    }
  }

  /** A listed delete without an error removes its profile, and it is gone after the batch unless a later create of
      it has no error either. */
  lemma DeletedIsGone(b: Batch, lib: Library, bindings: Bindings, caller: Caller, cs: seq<Change>, i: nat)
    requires b.errors == {} && b.touched == [] && Listed(b.pending, cs) && i < |cs| && cs[i].operation.Delete?
    ensures var t, id := After(b, lib, bindings, caller, cs), cs[i].operation.oldEntity.id;
            cs[i].id !in t.errors &&
            (forall j | i < j < |cs| && cs[j].operation.Create? && cs[j].operation.newEntity.id == id ::
               cs[j].id in t.errors) ==>
              id !in t.profiles
  {
    hide Process, MayDelete, Listed;
    var id := cs[i].operation.oldEntity.id;
    forall j: nat | j < |cs|
      ensures cs[j].id in After(b, lib, bindings, caller, cs).errors <==> !Succeeds(b, lib, bindings, caller, cs, j)
    {
      ErrorMeansFailed(b, lib, bindings, caller, cs, j);
    }
    if Succeeds(b, lib, bindings, caller, cs, i) &&
       forall j: nat | i < j < |cs| && cs[j].operation.Create? && cs[j].operation.newEntity.id == id ::
         !Succeeds(b, lib, bindings, caller, cs, j)
    {
      assert cs[..|cs|] == cs;
      ProcessNext(b, lib, bindings, caller, cs, i);
      StaysGone(b, lib, bindings, caller, cs, i + 1, |cs|, id);
    }
  }

  /** Updates proposed from one common version of a profile. */
  ghost predicate FromBase(us: seq<Change>, base: Profile) {
    forall u | u in us ::
      && u.operation.Update? && u.operation.oldEntity == base
      && u.operation.newEntity.id == base.id && u.operation.newEntity.applicationType == base.applicationType
  }

  predicate AltersName(u: Change) {
    u.operation.Update? && u.operation.newEntity.name != u.operation.oldEntity.name
  }

  predicate AltersJson(u: Change) {
    u.operation.Update? && u.operation.newEntity.jsonconfig != u.operation.oldEntity.jsonconfig
  }

  /** `value` is what the last change that alters the field made of it, or the base value if none does. */
  ghost predicate LastWord(us: seq<Change>, alters: Change -> bool, field: Profile -> string, base: string,
      value: string) {
    if exists u | u in us :: alters(u)
    then exists k: nat :: Decides(us, alters, k) && us[k].operation.Update? && value == field(us[k].operation.newEntity)
    else value == base
  }

  ghost predicate Decides(us: seq<Change>, alters: Change -> bool, k: nat) {
    k < |us| && alters(us[k]) && forall m | k < m < |us| :: !alters(us[m])
  }

  /** Each field of the merge has the value of the last change, in order, that altered it. */
  lemma {:induction false} LastWriterWins(us: seq<Change>, base: Profile)
    requires FromBase(us, base) && us != [] && AllUpdates(us)
    ensures var m := MergeAll(us).value;
            && m.id == base.id && m.applicationType == base.applicationType
            && LastWord(us, AltersName, (p: Profile) => p.name, base.name, m.name)
            && LastWord(us, AltersJson, (p: Profile) => p.jsonconfig, base.jsonconfig, m.jsonconfig)
  {
    hide LastWord;
    var n := |us| - 1;
    assert us[n] in us;
    if n > 0 {
      LastWriterWins(us[..n], base);
      var m := MergeAll(us[..n]).value;
      LastWordNext(us, AltersName, (p: Profile) => p.name, base.name, m.name);
      LastWordNext(us, AltersJson, (p: Profile) => p.jsonconfig, base.jsonconfig, m.jsonconfig);
    } else {
      FirstWord(us[0], AltersName, (p: Profile) => p.name);
      FirstWord(us[0], AltersJson, (p: Profile) => p.jsonconfig);
      assert us == [us[0]];
    }
  }

  lemma FirstWord(u: Change, alters: Change -> bool, field: Profile -> string)
    requires u.operation.Update? && (alters(u) <==> field(u.operation.newEntity) != field(u.operation.oldEntity))
    ensures LastWord([u], alters, field, field(u.operation.oldEntity), field(u.operation.newEntity))
  {
    assert alters(u) ==> u in [u] && Decides([u], alters, 0);
  }

  lemma LastWordNext(us: seq<Change>, alters: Change -> bool, field: Profile -> string, base: string, value: string)
    requires us != [] && us[|us| - 1].operation.Update?
    requires LastWord(us[..|us| - 1], alters, field, base, value)
    ensures var u := us[|us| - 1];
            LastWord(us, alters, field, base, if alters(u) then field(u.operation.newEntity) else value)
  {
    var n := |us| - 1;
    var front := us[..n];
    assert us == front + [us[n]];
    if alters(us[n]) {
      assert us[n] in us && Decides(us, alters, n);
    } else if u :| u in front && alters(u) {
      var k: nat :| Decides(front, alters, k) && front[k].operation.Update? &&
          value == field(front[k].operation.newEntity);
      assert us[k] in us && Decides(us, alters, k);
    }
  }

  /** Two changes with one timestamp do not alter the same field. */
  ghost predicate TiesDisjoint(us: seq<Change>) {
    forall u, v | u in us && v in us && u != v && u.updated == v.updated ::
      !(AltersName(u) && AltersName(v)) && !(AltersJson(u) && AltersJson(v))
  }

  lemma SameDecider(us: seq<Change>, vs: seq<Change>, alters: Change -> bool, k: nat, m: nat)
    requires InTime(us) && InTime(vs) && forall u :: u in us <==> u in vs
    requires forall u, v | u in us && v in us && u != v && u.updated == v.updated :: !(alters(u) && alters(v))
    requires Decides(us, alters, k) && Decides(vs, alters, m)
    ensures us[k] == vs[m]
  {
    assert us[k] in vs && vs[m] in us;
    var i :| 0 <= i < |us| && us[i] == vs[m];
    var j :| 0 <= j < |vs| && vs[j] == us[k];
    assert us[i].updated <= us[k].updated by {
      assert i <= k;
    }
    assert vs[j].updated <= vs[m].updated by {
      assert j <= m;
    }
  }

  lemma SameLastWord(us: seq<Change>, vs: seq<Change>, alters: Change -> bool, field: Profile -> string, base: string,
      x: string, y: string)
    requires InTime(us) && InTime(vs) && forall u :: u in us <==> u in vs
    requires forall u, v | u in us && v in us && u != v && u.updated == v.updated :: !(alters(u) && alters(v))
    requires LastWord(us, alters, field, base, x) && LastWord(vs, alters, field, base, y)
    ensures x == y
  {
    if u :| u in us && alters(u) {
      assert u in vs;
      hide InTime;
      var k: nat :| Decides(us, alters, k) && us[k].operation.Update? && x == field(us[k].operation.newEntity);
      var m: nat :| Decides(vs, alters, m) && vs[m].operation.Update? && y == field(vs[m].operation.newEntity);
      SameDecider(us, vs, alters, k, m);
    }
  }

  /** The sort by timestamp is not stable, and it does not matter: any two orders it may produce merge to
      the same profile, provided changes with equal timestamps alter different fields. */
  lemma MergeIgnoresTies(us: seq<Change>, vs: seq<Change>, base: Profile)
    requires InTime(us) && InTime(vs) && us != [] && forall u :: u in us <==> u in vs
    requires FromBase(us, base) && TiesDisjoint(us)
    ensures AllUpdates(us) && AllUpdates(vs) && vs != [] && MergeAll(us) == MergeAll(vs)
  {
    hide LastWord, Merge, InTime;
    assert us[0] in vs;
    LastWriterWins(us, base);
    LastWriterWins(vs, base);
    var m, w := MergeAll(us).value, MergeAll(vs).value;
    SameLastWord(us, vs, AltersName, (p: Profile) => p.name, base.name, m.name, w.name);
    SameLastWord(us, vs, AltersJson, (p: Profile) => p.jsonconfig, base.jsonconfig, m.jsonconfig, w.jsonconfig);
  }

  lemma {:induction false} ChangesOnHolds(cs: seq<Change>, entityId: string, c: Change)
    ensures c in ChangesOn(cs, entityId) <==> c in cs && c.entityId == entityId
  {
    if cs != [] {
      ChangesOnHolds(cs[..|cs| - 1], entityId, c);
      assert cs == cs[..|cs| - 1] + [cs[|cs| - 1]];
    }
  }

  lemma InTimeNext(before: seq<Change>, c: Change)
    requires InTime(before) && forall b | b in before :: b.updated <= c.updated
    ensures InTime(before + [c])
  {
    assert forall k | 0 <= k < |before| :: before[k] in before;
  }

  lemma InTimeSoFar(cs: seq<Change>, n: nat)
    requires InTime(cs) && n < |cs|
    ensures InTime(cs[..n]) && forall b | b in cs[..n] :: b.updated <= cs[n].updated
  {
  }

  lemma {:induction false} ChangesOnInTime(cs: seq<Change>, entityId: string)
    requires InTime(cs)
    ensures InTime(ChangesOn(cs, entityId))
  {
    if cs != [] {
      hide InTime, ChangesOn;
      var n := |cs| - 1;
      InTimeSoFar(cs, n);
      ChangesOnInTime(cs[..n], entityId);
      ChangesOnNext(cs, entityId);
      if cs[n].entityId == entityId {
        InTimeNext(ChangesOn(cs[..n], entityId), cs[n]);
      }
    } else {
      assert ChangesOn(cs, entityId) == [];
    }
  }

  /** For a batch: however the sort orders changes with equal timestamps, a profile whose updates all
      start from one version and all go through ends up the same. */
  lemma BatchIgnoresTies(b: Batch, lib: Library, bindings: Bindings, caller: Caller, cs: seq<Change>, ds: seq<Change>,
      entityId: string, base: Profile)
    requires b.merged == map[] && InTime(cs) && InTime(ds) && (forall c | c in cs :: AboutOneEntity(c)) &&
        forall c :: c in cs <==> c in ds
    requires FromBase(ChangesOn(cs, entityId), base) && TiesDisjoint(ChangesOn(cs, entityId)) &&
        ChangesOn(cs, entityId) != []
    requires forall i: nat | i < |cs| && cs[i].entityId == entityId :: Succeeds(b, lib, bindings, caller, cs, i)
    requires forall i: nat | i < |ds| && ds[i].entityId == entityId :: Succeeds(b, lib, bindings, caller, ds, i)
    ensures var p, q := Process(b, lib, bindings, caller, cs).profiles, Process(b, lib, bindings, caller, ds).profiles;
            entityId in p && entityId in q && p[entityId] == q[entityId]
  {
    hide Process, Succeeds, MergeAll, TiesDisjoint, InTime, ChangesOn, AboutOneEntity;
    ChangesOnInTime(cs, entityId);
    ChangesOnInTime(ds, entityId);
    forall c ensures c in ChangesOn(cs, entityId) <==> c in ChangesOn(ds, entityId) {
      ChangesOnHolds(cs, entityId, c);
      ChangesOnHolds(ds, entityId, c);
    }
    MergeIgnoresTies(ChangesOn(cs, entityId), ChangesOn(ds, entityId), base);
    BatchLeavesMerge(b, lib, bindings, caller, cs, entityId);
    BatchLeavesMerge(b, lib, bindings, caller, ds, entityId);
  }
}
