/** The approval workflow for permanent telemetry profiles: a profile change is proposed, waits as a
    pending change, and is approved, cancelled, or approved and later reverted. */
module ChangeApproval {
  import opened Basics

  datatype Profile = Profile(id: string, name: string, applicationType: string, settings: string)

  datatype Operation = CREATE | UPDATE | DELETE

  datatype Change = Change(
    id: string, entityId: string, operation: Operation, oldEntity: Profile, newEntity: Profile,
    applicationType: string, author: string, approvedUser: string)

  const NO_PROFILE := Profile("", "", "", "")

  /** The stores: pending and approved changes, profiles, and which profile each telemetry rule is bound to. */
  datatype State = State(
    pending: map<string, Change>, approved: map<string, Change>,
    profiles: map<string, Profile>, bindings: map<string, string>)

  /** An authorised caller: the application type it may write, and its name. */
  datatype Caller = Caller(app: string, user: string)

  /** Predicates of the surrounding library. */
  datatype Library = Library(
    valid: Profile -> bool, sameProfile: (Profile, Profile) -> bool, sameChange: (Change, Change) -> bool)

  datatype Outcome = Done | BadRequest | NotFound | Conflict | Forbidden | Crash

  predicate ValidCaller(c: Caller) {
    ValidApplicationType(c.app) && c.user != ""
  }

  // ---- guards

  ghost predicate NameTaken(s: State, p: Profile) {
    exists k | k in s.profiles :: OtherWithName(s.profiles[k], p)
  }

  predicate OtherWithName(other: Profile, p: Profile) {
    other.id != p.id && other.name == p.name
  }

  ghost predicate InUse(s: State, id: string) {
    exists rule | rule in s.bindings :: s.bindings[rule] == id
  }

  predicate MayWrite(caller: Caller, p: Profile) {
    ValidApplicationType(p.applicationType) && caller.app == p.applicationType
  }

  ghost predicate MayCreate(s: State, lib: Library, caller: Caller, p: Profile) {
    p.id !in s.profiles && MayWrite(caller, p) && lib.valid(p) && !NameTaken(s, p)
  }

  ghost predicate MayDelete(s: State, caller: Caller, id: string) {
    id in s.profiles && ApplicationTypeEquals(caller.app, s.profiles[id].applicationType) && !InUse(s, id)
  }

  /** The profile is already the subject of a pending change. The comparison of a change key with a
      profile key is the program's. */
  predicate Repeats(c: Change, p: Profile, lib: Library) {
    c.id != p.id && (lib.sameProfile(p, c.newEntity) || lib.sameProfile(p, c.oldEntity))
  }

  predicate ValidChange(c: Change) {
    && c.id != "" && c.author != "" && c.entityId != ""
    && (c.operation != DELETE ==> c.newEntity != NO_PROFILE)
    && (c.operation != CREATE ==> c.oldEntity != NO_PROFILE)
  }

  predicate SameOnEntity(existing: Change, c: Change, lib: Library) {
    existing.entityId == c.entityId && lib.sameChange(existing, c)
  }

  ghost predicate MayPropose(s: State, lib: Library, c: Change) {
    ValidChange(c) && !exists k | k in s.pending :: SameOnEntity(s.pending[k], c, lib)
  }

  // ---- what a request does

  /** `freshProfile` and `freshChange` are the identifiers generated while serving the request. Rebind is
      an edit of a telemetry rule, made elsewhere. */
  datatype Request =
    | ProposeCreate(profile: Profile, freshProfile: string, freshChange: string)
    | ProposeUpdate(profile: Profile, freshChange: string)
    | ProposeDelete(id: string, freshChange: string)
    | Approve(id: string)
    | Cancel(id: string)
    | Revert(id: string)
    | DeleteNow(id: string)
    | Rebind(rule: string, to: Option<string>)

  function Identified(p: Profile, newId: string): Profile {
    if p.id == "" then p.(id := newId) else p
  }

  function CreateChange(p: Profile, caller: Caller, id: string): Change {
    Change(id, p.id, CREATE, NO_PROFILE, p, caller.app, caller.user, "")
  }

  function UpdateChange(was: Profile, p: Profile, caller: Caller, id: string): Change {
    Change(id, was.id, UPDATE, was, p, caller.app, caller.user, "")
  }

  function DeleteChange(was: Profile, caller: Caller, id: string): Change {
    Change(id, was.id, DELETE, was, NO_PROFILE, caller.app, caller.user, "")
  }

  /** The profile store after the operation of a change, if its guard lets it through. */
  ghost function Applied(s: State, lib: Library, caller: Caller, c: Change): Option<map<string, Profile>> {
    match c.operation
    case CREATE => if MayCreate(s, lib, caller, c.newEntity) then Some(s.profiles[c.newEntity.id := c.newEntity])
        else None
    case UPDATE => if c.newEntity.id in s.profiles then Some(s.profiles[c.newEntity.id := c.newEntity]) else None
    case DELETE => if MayDelete(s, caller, c.oldEntity.id) then Some(s.profiles - {c.oldEntity.id}) else None
  }

  /** The profile store after undoing a change; a failing undo is silently dropped. */
  ghost function Undone(s: State, lib: Library, caller: Caller, c: Change): map<string, Profile> {
    match c.operation
    case CREATE => if MayDelete(s, caller, c.entityId) then s.profiles - {c.entityId} else s.profiles
    case UPDATE => if c.oldEntity.id in s.profiles then s.profiles[c.oldEntity.id := c.oldEntity] else s.profiles
    case DELETE => if MayCreate(s, lib, caller, c.oldEntity) then s.profiles[c.oldEntity.id := c.oldEntity]
        else s.profiles
  }

  function OnOtherEntities(pending: map<string, Change>, entityId: string): map<string, Change> {
    map k | k in pending && pending[k].entityId != entityId :: pending[k]
  }

  ghost function Step(s: State, lib: Library, caller: Caller, request: Request): State {
    match request
    case ProposeCreate(profile, freshProfile, freshChange) =>
      var p := Identified(profile, freshProfile);
      var c := CreateChange(p, caller, freshChange);
      if MayCreate(s, lib, caller, p) && (forall k | k in s.pending :: !Repeats(s.pending[k], p, lib)) &&
          MayPropose(s, lib, c)
      then s.(pending := s.pending[c.id := c])
      else s
    case ProposeUpdate(p, freshChange) =>
      if !MayWrite(caller, p) || p.id == "" || p.id !in s.profiles || !lib.valid(p) || NameTaken(s, p) then s
      else if lib.sameProfile(p, s.profiles[p.id]) then s.(profiles := s.profiles[p.id := p])
      else
        var c := UpdateChange(s.profiles[p.id], p, caller, freshChange);
        if MayPropose(s, lib, c) then s.(pending := s.pending[c.id := c]) else s
    case ProposeDelete(id, freshChange) =>
      if !MayDelete(s, caller, id) then s
      else
        var c := DeleteChange(s.profiles[id], caller, freshChange);
        if MayPropose(s, lib, c) then s.(pending := s.pending[c.id := c]) else s
    case Approve(id) =>
      if id !in s.pending || Applied(s, lib, caller, s.pending[id]).None? then s
      else
        var c := s.pending[id];
        State(OnOtherEntities(s.pending, c.entityId), s.approved[id := c.(approvedUser := caller.user)],
              Applied(s, lib, caller, c).value, s.bindings)
    case Cancel(id) =>
      s.(pending := s.pending - {id})
    case Revert(id) =>
      if id == "" || id !in s.approved || (s.approved[id].operation == CREATE &&
          s.approved[id].entityId !in s.profiles) then s
      else s.(profiles := Undone(s, lib, caller, s.approved[id]), approved := s.approved - {id})
    case DeleteNow(id) =>
      if MayDelete(s, caller, id) then s.(profiles := s.profiles - {id}) else s
    case Rebind(rule, to) =>
      s.(bindings := if to.Some? then s.bindings[rule := to.value] else s.bindings - {rule})
  }

  /** Generated identifiers are new. */
  predicate Fresh(s: State, request: Request) {
    && (request.ProposeCreate? ==> request.freshProfile != "" && request.freshProfile !in s.profiles)
    && (request.ProposeCreate? || request.ProposeUpdate? || request.ProposeDelete? ==>
          request.freshChange != "" && request.freshChange !in s.pending && request.freshChange !in s.approved)
  }

  datatype Served = Served(caller: Caller, request: Request)

  ghost function Run(s: State, lib: Library, served: seq<Served>): State {
    if served == [] then s
    else var n := |served| - 1; Step(Run(s, lib, served[..n]), lib, served[n].caller, served[n].request)
  }

  /** Every request of the run came from an authorised caller, with fresh identifiers at that moment. */
  ghost predicate Possible(s: State, lib: Library, served: seq<Served>) {
    served == [] ||
    var n := |served| - 1;
    Possible(s, lib, served[..n]) && ValidCaller(served[n].caller) && Fresh(Run(s, lib, served[..n]), served[n].request)
  }

  // ---- the invariant

  predicate AboutOneEntity(c: Change) {
    && c.entityId != ""
    && (c.operation != DELETE ==> c.newEntity.id == c.entityId)
    && (c.operation != CREATE ==> c.oldEntity.id == c.entityId)
  }

  ghost predicate KeyedProfiles(profiles: map<string, Profile>) {
    forall k | k in profiles :: profiles[k].id == k && k != ""
  }

  ghost predicate KeyedChanges(changes: map<string, Change>) {
    forall k | k in changes :: changes[k].id == k && k != "" && AboutOneEntity(changes[k])
  }

  ghost predicate NoRepetition(pending: map<string, Change>, lib: Library) {
    forall a, b | a in pending && b in pending && a != b :: !SameOnEntity(pending[a], pending[b], lib)
  }

  /** Stores are keyed by identifier, a change is about one profile, no change is both pending and
      approved, and no two pending changes on a profile carry the same data. */
  ghost predicate Inv(s: State, lib: Library) {
    && KeyedProfiles(s.profiles) && KeyedChanges(s.pending) && KeyedChanges(s.approved)
    && s.pending.Keys !! s.approved.Keys
    && NoRepetition(s.pending, lib)
  }

  ghost predicate Symmetric(lib: Library) {
    forall a, b :: lib.sameChange(a, b) == lib.sameChange(b, a)
  }

  lemma ProposalKeepsInv(s: State, lib: Library, c: Change)
    requires Inv(s, lib) && Symmetric(lib) && MayPropose(s, lib, c) && AboutOneEntity(c)
    requires c.id != "" && c.id !in s.pending && c.id !in s.approved
    ensures Inv(s.(pending := s.pending[c.id := c]), lib)
  {
  }

  lemma ApprovalKeepsInv(s: State, lib: Library, caller: Caller, id: string)
    requires Inv(s, lib) && id in s.pending
    ensures Inv(Step(s, lib, caller, Approve(id)), lib)
  {
    var c := s.pending[id];
    if Applied(s, lib, caller, c).Some? {
      assert KeyedProfiles(Applied(s, lib, caller, c).value);
      assert KeyedChanges(OnOtherEntities(s.pending, c.entityId));
      assert id !in OnOtherEntities(s.pending, c.entityId);
      assert NoRepetition(OnOtherEntities(s.pending, c.entityId), lib);
    }
  }

  lemma RevertKeepsInv(s: State, lib: Library, caller: Caller, id: string)
    requires Inv(s, lib)
    ensures Inv(Step(s, lib, caller, Revert(id)), lib)
  {
  }

  /** Each step keeps the invariant. */
  lemma StepKeepsInv(s: State, lib: Library, caller: Caller, request: Request)
    requires Inv(s, lib) && Symmetric(lib) && ValidCaller(caller) && Fresh(s, request)
    ensures Inv(Step(s, lib, caller, request), lib)
  {
    hide Inv, MayCreate, MayDelete, MayPropose, Symmetric, NameTaken, Repeats;
    ProfilesAreKeyed(s, lib);
    match request
    case ProposeCreate(profile, freshProfile, freshChange) =>
      var c := CreateChange(Identified(profile, freshProfile), caller, freshChange);
      if MayPropose(s, lib, c) {
        ProposalKeepsInv(s, lib, c);
      }
    case ProposeUpdate(p, freshChange) =>
      if p.id in s.profiles {
        SavedKeepsInv(s, lib, p);
        var c := UpdateChange(s.profiles[p.id], p, caller, freshChange);
        if MayPropose(s, lib, c) {
          ProposalKeepsInv(s, lib, c);
        }
      }
    case ProposeDelete(id, freshChange) =>
      if MayDelete(s, caller, id) {
        DeletableIsStored(s, caller, id);
        var c := DeleteChange(s.profiles[id], caller, freshChange);
        if MayPropose(s, lib, c) {
          ProposalKeepsInv(s, lib, c);
        }
      }
    case Approve(id) =>
      if id in s.pending {
        ApprovalKeepsInv(s, lib, caller, id);
      }
    case Revert(id) => RevertKeepsInv(s, lib, caller, id);
    case Cancel(id) => RemovalKeepsInv(s, lib, id);
    case DeleteNow(id) => RemovalKeepsInv(s, lib, id);
    case Rebind(rule, to) => BindingsKeepInv(s, lib, Step(s, lib, caller, request).bindings);
  }

  lemma ProfilesAreKeyed(s: State, lib: Library)
    requires Inv(s, lib)
    ensures forall k | k in s.profiles :: s.profiles[k].id == k && k != ""
  {
  }

  lemma DeletableIsStored(s: State, caller: Caller, id: string)
    requires MayDelete(s, caller, id)
    ensures id in s.profiles
  {
  }

  lemma SavedKeepsInv(s: State, lib: Library, p: Profile)
    requires Inv(s, lib) && p.id in s.profiles
    ensures Inv(s.(profiles := s.profiles[p.id := p]), lib)
  {
  }

  lemma RemovalKeepsInv(s: State, lib: Library, id: string)
    requires Inv(s, lib)
    ensures Inv(s.(pending := s.pending - {id}), lib) && Inv(s.(profiles := s.profiles - {id}), lib)
  {
  }

  lemma BindingsKeepInv(s: State, lib: Library, bindings: map<string, string>)
    requires Inv(s, lib)
    ensures Inv(s.(bindings := bindings), lib)
  {
  }

  lemma {:induction false} RunKeepsInv(s: State, lib: Library, served: seq<Served>)
    requires Inv(s, lib) && Symmetric(lib) && Possible(s, lib, served)
    ensures Inv(Run(s, lib, served), lib)
  {
    if served != [] {
      var n := |served| - 1;
      RunKeepsInv(s, lib, served[..n]);
      StepKeepsInv(Run(s, lib, served[..n]), lib, served[n].caller, served[n].request);
    }
  }

  // ---- what the workflow promises

  /** A successful approval settles its profile: the change moves from pending to approved, nothing stays
      pending on that profile, other profiles and their changes are untouched. A failing one changes
      nothing at all. */
  lemma ApprovalSettlesEntity(s: State, lib: Library, caller: Caller, id: string)
    requires Inv(s, lib) && id in s.pending
    ensures var c, t := s.pending[id], Step(s, lib, caller, Approve(id));
            if Applied(s, lib, caller, c).None? then t == s
            else
              && id !in t.pending && id in t.approved && t.approved[id] == c.(approvedUser := caller.user)
              && (forall k | k in t.pending :: t.pending[k].entityId != c.entityId)
              && (forall k | k in s.pending && s.pending[k].entityId != c.entityId ::
                    k in t.pending && t.pending[k] == s.pending[k])
              && t.approved - {id} == s.approved
              && t.profiles - {c.entityId} == s.profiles - {c.entityId}
              && (c.operation == DELETE <==> c.entityId !in t.profiles)
              && (c.operation != DELETE ==> t.profiles[c.entityId] == c.newEntity)
  {
  }

  /** When reverting straight after approving gives the old profiles back. */
  ghost predicate Revertible(s: State, after: State, lib: Library, caller: Caller, c: Change) {
    match c.operation
    case CREATE => ApplicationTypeEquals(caller.app, c.newEntity.applicationType) && !InUse(s, c.entityId)
    case UPDATE => c.entityId in s.profiles && c.oldEntity == s.profiles[c.entityId]
    case DELETE =>
      && c.entityId in s.profiles && c.oldEntity == s.profiles[c.entityId]
      && MayWrite(caller, c.oldEntity) && lib.valid(c.oldEntity) && !NameTaken(after, c.oldEntity)
  }

  /** Approving and reverting a change restores the profile store exactly when the change is revertible;
      the approved record is gone either way. */
  lemma RevertUndoesApproval(s: State, lib: Library, approver: Caller, reverter: Caller, id: string)
    requires Inv(s, lib) && id in s.pending && Applied(s, lib, approver, s.pending[id]).Some?
    ensures var t := Step(s, lib, approver, Approve(id));
            var u := Step(t, lib, reverter, Revert(id));
            && u.approved == s.approved
            && (u.profiles == s.profiles <==> Revertible(s, t, lib, reverter, s.pending[id]))
  {
    hide Applied, Undone, Revertible;
    var c := s.pending[id];
    var t := Step(s, lib, approver, Approve(id));
    var u := Step(t, lib, reverter, Revert(id));
    assert c.operation == CREATE ==> c.entityId in t.profiles by {
      ApprovalSettlesEntity(s, lib, approver, id);
    }
    assert u.approved == s.approved;
    SameOperation(t, lib, reverter, c, t.approved[id]);
    match c.operation
    case CREATE => RevertUndoesCreate(s, t, lib, approver, reverter, c);
    case UPDATE => RevertUndoesUpdate(s, t, lib, approver, reverter, c);
    case DELETE => RevertUndoesDelete(s, t, lib, approver, reverter, c);
  }

  lemma SameOperation(t: State, lib: Library, caller: Caller, c: Change, d: Change)
    requires d == c.(approvedUser := d.approvedUser)
    ensures Undone(t, lib, caller, d) == Undone(t, lib, caller, c)
  {
    hide MayCreate, MayDelete;
  }

  lemma RevertUndoesCreate(s: State, t: State, lib: Library, approver: Caller, reverter: Caller, c: Change)
    requires c.operation == CREATE && AboutOneEntity(c) && Applied(s, lib, approver, c) == Some(t.profiles) &&
        t.bindings == s.bindings
    ensures Undone(t, lib, reverter, c) == s.profiles <==> Revertible(s, t, lib, reverter, c)
  {
    assert t.profiles == s.profiles[c.entityId := c.newEntity] && t.profiles - {c.entityId} == s.profiles;
    assert InUse(t, c.entityId) <==> InUse(s, c.entityId);
  }

  lemma RevertUndoesUpdate(s: State, t: State, lib: Library, approver: Caller, reverter: Caller, c: Change)
    requires c.operation == UPDATE && AboutOneEntity(c) && Applied(s, lib, approver, c) == Some(t.profiles)
    ensures Undone(t, lib, reverter, c) == s.profiles <==> Revertible(s, t, lib, reverter, c)
  {
    assert Undone(t, lib, reverter, c) == s.profiles[c.entityId := c.oldEntity];
  }

  lemma RevertUndoesDelete(s: State, t: State, lib: Library, approver: Caller, reverter: Caller, c: Change)
    requires c.operation == DELETE && AboutOneEntity(c) && Applied(s, lib, approver, c) == Some(t.profiles)
    ensures Undone(t, lib, reverter, c) == s.profiles <==> Revertible(s, t, lib, reverter, c)
  {
    hide NameTaken, InUse;
    assert t.profiles == s.profiles - {c.entityId};
  }

  ghost predicate NamesUnique(s: State) {
    forall k | k in s.profiles :: !NameTaken(s, s.profiles[k])
  }

  /** Approving an update does not look at names. Names stay unique over an approval exactly when the
      change is not an update to a name some other profile has. */
  lemma ApprovalKeepsNamesUnique(s: State, lib: Library, caller: Caller, id: string)
    requires Inv(s, lib) && NamesUnique(s) && id in s.pending && Applied(s, lib, caller, s.pending[id]).Some?
    ensures NamesUnique(Step(s, lib, caller, Approve(id))) <==>
            s.pending[id].operation != UPDATE || !NameTaken(s, s.pending[id].newEntity)
  {
    var c, t := s.pending[id], Step(s, lib, caller, Approve(id));
    if c.operation == DELETE {
      DeletionKeepsNames(s, t);
    } else {
      StoringAndNames(s, t, c.newEntity);
    }
  }

  lemma DeletionKeepsNames(s: State, t: State)
    requires NamesUnique(s)
    requires forall k | k in t.profiles :: k in s.profiles && t.profiles[k] == s.profiles[k]
    ensures NamesUnique(t)
  {
    forall k | k in t.profiles ensures !NameTaken(t, t.profiles[k]) {
      assert !NameTaken(s, s.profiles[k]);
    }
  }

  lemma StoringAndNames(s: State, t: State, p: Profile)
    requires KeyedProfiles(s.profiles) && NamesUnique(s) && t.profiles == s.profiles[p.id := p]
    ensures NamesUnique(t) <==> !NameTaken(s, p)
  {
    if k :| k in s.profiles && OtherWithName(s.profiles[k], p) {
      assert t.profiles[k] == s.profiles[k];
      assert NameTaken(t, t.profiles[p.id]);
    }
    if !NameTaken(s, p) {
      forall k | k in t.profiles ensures !NameTaken(t, t.profiles[k]) {
        if k != p.id {
          assert !NameTaken(s, s.profiles[k]) && !OtherWithName(s.profiles[k], p);
        }
      }
    }
  }

  /** Approving or reverting an update stores a profile without looking at names. */
  ghost predicate TakesName(s: State, request: Request) {
    match request
    case Approve(id) => id in s.pending && StoresTaken(s, s.pending[id].operation, s.pending[id].newEntity)
    case Revert(id) =>
      id != "" && id in s.approved && StoresTaken(s, s.approved[id].operation, s.approved[id].oldEntity)
    case _ => false
  }

  ghost predicate StoresTaken(s: State, operation: Operation, p: Profile) {
    operation == UPDATE && p.id in s.profiles && NameTaken(s, p)
  }

  /** A request keeps names unique exactly when it does not approve or revert an update to a name that another
      profile has. */
  lemma StepKeepsNames(s: State, lib: Library, caller: Caller, request: Request)
    requires Inv(s, lib) && NamesUnique(s)
    ensures NamesUnique(Step(s, lib, caller, request)) <==> !TakesName(s, request)
  {
    hide NamesUnique, NameTaken, MayDelete, MayPropose, Repeats;
    var t := Step(s, lib, caller, request);
    match request
    case ProposeCreate(_, _, _) => SameProfilesSameNames(s, t);
    case ProposeUpdate(p, _) =>
      if t.profiles == s.profiles {
        SameProfilesSameNames(s, t);
      } else {
        StoringAndNames(s, t, p);
      }
    case ProposeDelete(_, _) => SameProfilesSameNames(s, t);
    case Approve(id) =>
      if id in s.pending && Applied(s, lib, caller, s.pending[id]).Some? {
        ApprovalKeepsNamesUnique(s, lib, caller, id);
      }
    case Cancel(_) => SameProfilesSameNames(s, t);
    case Revert(id) => RevertAndNames(s, lib, caller, id);
    case DeleteNow(_) => DeletionKeepsNames(s, t);
    case Rebind(_, _) => SameProfilesSameNames(s, t);
  }

  lemma SameProfilesSameNames(s: State, t: State)
    requires t.profiles == s.profiles
    ensures NamesUnique(t) <==> NamesUnique(s)
  {
    assert forall p :: NameTaken(t, p) <==> NameTaken(s, p);
  }

  lemma RevertAndNames(s: State, lib: Library, caller: Caller, id: string)
    requires Inv(s, lib) && NamesUnique(s)
    ensures NamesUnique(Step(s, lib, caller, Revert(id))) <==> !TakesName(s, Revert(id))
  {
    hide NamesUnique, NameTaken, MayDelete;
    var t := Step(s, lib, caller, Revert(id));
    if t.profiles == s.profiles {
      SameProfilesSameNames(s, t);
    }
    if id != "" && id in s.approved {
      var c := s.approved[id];
      match c.operation
      case CREATE => DeletionKeepsNames(s, t);
      case UPDATE =>
        if c.oldEntity.id in s.profiles {
          StoringAndNames(s, t, c.oldEntity);
        }
      case DELETE =>
        if MayCreate(s, lib, caller, c.oldEntity) {
          StoringAndNames(s, t, c.oldEntity);
        }
    }
  }

  lemma {:induction false} PossibleSoFar(s: State, lib: Library, served: seq<Served>, n: nat)
    requires Possible(s, lib, served) && n <= |served|
    ensures Possible(s, lib, served[..n])
    decreases |served|
  {
    if n < |served| {
      assert served[..|served| - 1][..n] == served[..n];
      PossibleSoFar(s, lib, served[..|served| - 1], n);
    } else {
      assert served[..n] == served;
    }
  }

  lemma NamesNext(s: State, lib: Library, served: seq<Served>, n: nat)
    requires Inv(s, lib) && Symmetric(lib) && Possible(s, lib, served) && n < |served|
    requires NamesUnique(Run(s, lib, served[..n]))
    ensures NamesUnique(Run(s, lib, served[..n + 1])) <==> !TakesName(Run(s, lib, served[..n]), served[n].request)
  {
    hide NamesUnique, TakesName, Inv, Step;
    PossibleSoFar(s, lib, served, n);
    RunKeepsInv(s, lib, served[..n]);
    assert served[..n + 1][..n] == served[..n];
    StepKeepsNames(Run(s, lib, served[..n]), lib, served[n].caller, served[n].request);
  }

  /** Over every run, names are unique at all times exactly when no request takes a name. */
  lemma RunKeepsNames(s: State, lib: Library, served: seq<Served>)
    requires Inv(s, lib) && Symmetric(lib) && Possible(s, lib, served) && NamesUnique(s)
    ensures (forall n | 0 <= n <= |served| :: NamesUnique(Run(s, lib, served[..n]))) <==>
            forall n | 0 <= n < |served| :: !TakesName(Run(s, lib, served[..n]), served[n].request)
  {
    hide NamesUnique, TakesName, Inv, Step, Possible, Run;
    if forall n | 0 <= n <= |served| :: NamesUnique(Run(s, lib, served[..n])) {
      forall n | 0 <= n < |served| ensures !TakesName(Run(s, lib, served[..n]), served[n].request) {
        NamesNext(s, lib, served, n);
      }
    }
    if forall n | 0 <= n < |served| :: !TakesName(Run(s, lib, served[..n]), served[n].request) {
      forall n | 0 <= n <= |served| ensures NamesUnique(Run(s, lib, served[..n])) {
        NothingTaken(s, lib, served, n);
      }
    }
  }

  lemma {:induction false} NothingTaken(s: State, lib: Library, served: seq<Served>, n: nat)
    requires Inv(s, lib) && Symmetric(lib) && Possible(s, lib, served) && NamesUnique(s) && n <= |served|
    requires forall m | 0 <= m < |served| :: !TakesName(Run(s, lib, served[..m]), served[m].request)
    ensures NamesUnique(Run(s, lib, served[..n]))
  {
    hide NamesUnique, TakesName, Inv, Step, Possible;
    if n == 0 {
      assert served[..0] == [];
    } else {
      NothingTaken(s, lib, served, n - 1);
      NamesNext(s, lib, served, n - 1);
    }
  }

  /** An input: two profiles, and a pending update that gives the second the name of the first. */
  lemma NameTakenOver(lib: Library, caller: Caller)
    ensures var p, q := Profile("1", "A", STB, ""), Profile("2", "B", STB, "");
            var c := Change("c", "2", UPDATE, q, q.(name := "A"), STB, "author", "");
            var s := State(map["c" := c], map[], map["1" := p, "2" := q], map[]);
            Inv(s, lib) && NamesUnique(s) && !NamesUnique(Step(s, lib, caller, Approve("c")))
  {
    var p, q := Profile("1", "A", STB, ""), Profile("2", "B", STB, "");
    var c := Change("c", "2", UPDATE, q, q.(name := "A"), STB, "author", "");
    var s := State(map["c" := c], map[], map["1" := p, "2" := q], map[]);
    assert OtherWithName(s.profiles["1"], c.newEntity);
    StepKeepsNames(s, lib, caller, Approve("c"));
  }

  /** No run removes a profile from under a telemetry rule: a binding that resolves keeps resolving for
      as long as the rule is not edited. */
  lemma {:induction false} BindingKeepsResolving(s: State, lib: Library, served: seq<Served>, rule: string)
    requires rule in s.bindings && s.bindings[rule] in s.profiles
    requires forall n | 0 <= n < |served| :: !(served[n].request.Rebind? && served[n].request.rule == rule)
    ensures var t := Run(s, lib, served);
            rule in t.bindings && t.bindings[rule] == s.bindings[rule] && t.bindings[rule] in t.profiles
  {
    if served != [] {
      var n := |served| - 1;
      BindingKeepsResolving(s, lib, served[..n], rule);
      StepKeepsBound(Run(s, lib, served[..n]), lib, served[n].caller, served[n].request, rule);
    }
  }

  lemma StepKeepsBound(s: State, lib: Library, caller: Caller, request: Request, rule: string)
    requires rule in s.bindings && s.bindings[rule] in s.profiles
    requires !(request.Rebind? && request.rule == rule)
    ensures var t := Step(s, lib, caller, request);
            rule in t.bindings && t.bindings[rule] == s.bindings[rule] && t.bindings[rule] in t.profiles
  {
    assert InUse(s, s.bindings[rule]);
    hide MayPropose, NameTaken, MayCreate;
  }

  // ---- the life of a change, from the proposal on

  /** A run is its requests one after the other. */
  lemma RunNext(s: State, lib: Library, served: seq<Served>, caller: Caller, request: Request)
    ensures Run(s, lib, []) == s
    ensures Run(s, lib, served + [Served(caller, request)]) == Step(Run(s, lib, served), lib, caller, request)
  {
    hide Step;
    assert (served + [Served(caller, request)])[..|served|] == served;
  }

  /** A proposed create: when it is accepted, and the record that then waits. */
  lemma CreateIsProposed(s: State, lib: Library, caller: Caller, profile: Profile, freshProfile: string,
      freshChange: string)
    requires ValidCaller(caller) && Fresh(s, ProposeCreate(profile, freshProfile, freshChange))
    ensures var p := if profile.id == "" then profile.(id := freshProfile) else profile;
            var c := Change(freshChange, p.id, CREATE, Profile("", "", "", ""), p, caller.app, caller.user, "");
            var accepted :=
              && p.id !in s.profiles && ValidApplicationType(p.applicationType) && caller.app == p.applicationType
              && lib.valid(p)
              && (forall k | k in s.profiles :: s.profiles[k].id == p.id || s.profiles[k].name != p.name)
              && (forall k | k in s.pending && s.pending[k].id != p.id ::
                    !lib.sameProfile(p, s.pending[k].newEntity) && !lib.sameProfile(p, s.pending[k].oldEntity))
              && (forall k | k in s.pending && s.pending[k].entityId == p.id :: !lib.sameChange(s.pending[k], c));
            Step(s, lib, caller, ProposeCreate(profile, freshProfile, freshChange)) ==
            if accepted then State(s.pending[freshChange := c], s.approved, s.profiles, s.bindings) else s
  {
    NameTakenMeans(s, if profile.id == "" then profile.(id := freshProfile) else profile);
    hide NameTaken;
  }

  lemma NameTakenMeans(s: State, p: Profile)
    ensures NameTaken(s, p) <==> !forall k | k in s.profiles :: s.profiles[k].id == p.id || s.profiles[k].name != p.name
  {
    assert forall k | k in s.profiles :: OtherWithName(s.profiles[k], p) <==>
               !(s.profiles[k].id == p.id || s.profiles[k].name != p.name);
  }

  /** A proposed update: when it is refused, when it is saved at once, and the record that otherwise waits. */
  lemma UpdateIsProposed(s: State, lib: Library, caller: Caller, p: Profile, freshChange: string)
    requires Inv(s, lib) && ValidCaller(caller) && Fresh(s, ProposeUpdate(p, freshChange))
    ensures var t := Step(s, lib, caller, ProposeUpdate(p, freshChange));
            if !(&& p.id in s.profiles && ValidApplicationType(p.applicationType) && caller.app == p.applicationType
                 && lib.valid(p)
                 && forall k | k in s.profiles :: s.profiles[k].id == p.id || s.profiles[k].name != p.name) then t == s
            else if lib.sameProfile(p, s.profiles[p.id]) then
              t == State(s.pending, s.approved, s.profiles[p.id := p], s.bindings)
            else
              var c := Change(freshChange, p.id, UPDATE, s.profiles[p.id], p, caller.app, caller.user, "");
              var repeated := exists k | k in s.pending ::
                  s.pending[k].entityId == p.id && lib.sameChange(s.pending[k], c);
              t == if repeated then s else State(s.pending[freshChange := c], s.approved, s.profiles, s.bindings)
  {
    NameTakenMeans(s, p);
    ProfilesAreKeyed(s, lib);
    hide NameTaken, Inv;
    if p.id in s.profiles {
      var c := UpdateChange(s.profiles[p.id], p, caller, freshChange);
      assert forall k | k in s.pending :: SameOnEntity(s.pending[k], c, lib) <==>
                 s.pending[k].entityId == p.id && lib.sameChange(s.pending[k], c);
    }
  }

  /** A proposed delete: when it is accepted, and the record that then waits. */
  lemma DeleteIsProposed(s: State, lib: Library, caller: Caller, id: string, freshChange: string)
    requires Inv(s, lib) && ValidCaller(caller) && Fresh(s, ProposeDelete(id, freshChange))
    ensures var t := Step(s, lib, caller, ProposeDelete(id, freshChange));
            if !(&& id in s.profiles && ApplicationTypeEquals(caller.app, s.profiles[id].applicationType)
                 && forall rule | rule in s.bindings :: s.bindings[rule] != id) then t == s
            else
              var none := Profile("", "", "", "");
              var c := Change(freshChange, id, DELETE, s.profiles[id], none, caller.app, caller.user, "");
              var repeated := exists k | k in s.pending ::
                  s.pending[k].entityId == id && lib.sameChange(s.pending[k], c);
              t == if repeated then s else State(s.pending[freshChange := c], s.approved, s.profiles, s.bindings)
  {
    ProfilesAreKeyed(s, lib);
    hide Inv;
    if id in s.profiles {
      var c := DeleteChange(s.profiles[id], caller, freshChange);
      assert forall k | k in s.pending :: SameOnEntity(s.pending[k], c, lib) <==>
                 s.pending[k].entityId == id && lib.sameChange(s.pending[k], c);
    }
  }

  /** An approval: when the operation goes through, and what it leaves in each store. */
  lemma ApproveDoes(s: State, lib: Library, caller: Caller, id: string)
    ensures var t := Step(s, lib, caller, Approve(id));
            if id !in s.pending then t == s
            else
              var c := s.pending[id];
              var p := if c.operation == DELETE then c.oldEntity else c.newEntity;
              var ok := match c.operation
                case CREATE =>
                  && p.id !in s.profiles && ValidApplicationType(p.applicationType) && caller.app == p.applicationType
                  && lib.valid(p)
                  && forall k | k in s.profiles :: s.profiles[k].id == p.id || s.profiles[k].name != p.name
                case UPDATE => p.id in s.profiles
                case DELETE =>
                  && p.id in s.profiles && ApplicationTypeEquals(caller.app, s.profiles[p.id].applicationType)
                  && forall rule | rule in s.bindings :: s.bindings[rule] != p.id;
              if !ok then t == s
              else
                && t.profiles == (if c.operation == DELETE then s.profiles - {p.id} else s.profiles[p.id := p])
                && t.approved == s.approved[id := c.(approvedUser := caller.user)] && t.bindings == s.bindings
                && (forall k :: k in t.pending <==> k in s.pending && s.pending[k].entityId != c.entityId)
                && (forall k | k in t.pending :: t.pending[k] == s.pending[k])
  {
    if id in s.pending {
      NameTakenMeans(s, s.pending[id].newEntity);
    }
    hide NameTaken;
  }

  /** A revert: the approved record is gone, the profile as it was before the change is back if the create, update
      or delete that this takes goes through, and nothing else changes. */
  lemma RevertDoes(s: State, lib: Library, caller: Caller, id: string)
    requires "" !in s.approved
    ensures var t := Step(s, lib, caller, Revert(id));
            t.pending == s.pending && t.bindings == s.bindings &&
            if id !in s.approved then t == s
            else
              var c := s.approved[id];
              var q := c.oldEntity;
              match c.operation
              case CREATE =>
                if c.entityId !in s.profiles then t == s
                else
                  && t.approved == s.approved - {id}
                  && t.profiles == (if && ApplicationTypeEquals(caller.app, s.profiles[c.entityId].applicationType)
                                       && forall rule | rule in s.bindings :: s.bindings[rule] != c.entityId
                                    then s.profiles - {c.entityId} else s.profiles)
              case UPDATE =>
                && t.approved == s.approved - {id}
                && t.profiles == (if q.id in s.profiles then s.profiles[q.id := q] else s.profiles)
              case DELETE =>
                && t.approved == s.approved - {id}
                && var ok :=
                     && q.id !in s.profiles && ValidApplicationType(q.applicationType)
                     && caller.app == q.applicationType && lib.valid(q)
                     && forall k | k in s.profiles :: s.profiles[k].id == q.id || s.profiles[k].name != q.name;
                   t.profiles == if ok then s.profiles[q.id := q] else s.profiles
  {
    if id in s.approved {
      NameTakenMeans(s, s.approved[id].oldEntity);
    }
    hide NameTaken;
  }

  /** The requests that need no approval. */
  lemma OthersDo(s: State, lib: Library, caller: Caller, id: string, rule: string, to: string)
    ensures Step(s, lib, caller, Cancel(id)) == State(s.pending - {id}, s.approved, s.profiles, s.bindings)
    ensures var removable := id in s.profiles && ApplicationTypeEquals(caller.app, s.profiles[id].applicationType) &&
                forall r | r in s.bindings :: s.bindings[r] != id;
            Step(s, lib, caller, DeleteNow(id)) ==
            State(s.pending, s.approved, if removable then s.profiles - {id} else s.profiles, s.bindings)
    ensures Step(s, lib, caller, Rebind(rule, Some(to))) == s.(bindings := s.bindings[rule := to])
    ensures Step(s, lib, caller, Rebind(rule, None)) == s.(bindings := s.bindings - {rule})
  {
  }

  lemma ApproveUpdate(s: State, lib: Library, caller: Caller, id: string)
    requires id in s.pending && s.pending[id].operation == UPDATE
    ensures var c, t := s.pending[id], Step(s, lib, caller, Approve(id));
            if c.newEntity.id !in s.profiles then t == s
            else
              && t.profiles == s.profiles[c.newEntity.id := c.newEntity] && id !in t.pending
              && t.approved == s.approved[id := c.(approvedUser := caller.user)]
  {
  }

  lemma RevertUpdate(s: State, lib: Library, caller: Caller, id: string)
    requires id != "" && id in s.approved && s.approved[id].operation == UPDATE
    ensures var q, t := s.approved[id].oldEntity, Step(s, lib, caller, Revert(id));
            && t.profiles == (if q.id in s.profiles then s.profiles[q.id := q] else s.profiles)
            && t.approved == s.approved - {id}
  {
  }

  lemma UpdateWaits(s: State, lib: Library, author: Caller, p: Profile, c: string)
    requires Inv(s, lib) && ValidCaller(author) && Fresh(s, ProposeUpdate(p, c))
    requires c in Step(s, lib, author, ProposeUpdate(p, c)).pending
    ensures c !in s.pending && c !in s.approved && c != "" && p.id in s.profiles && s.profiles[p.id].id == p.id
    ensures var record := Change(c, p.id, UPDATE, s.profiles[p.id], p, author.app, author.user, "");
            Step(s, lib, author, ProposeUpdate(p, c)) == s.(pending := s.pending[c := record])
  {
    ProfilesAreKeyed(s, lib);
    hide Inv, Step;
    UpdateIsProposed(s, lib, author, p, c);
  }

  lemma CancelUndoesProposal(s: State, t: State, lib: Library, caller: Caller, c: string)
    requires c !in s.pending && c in t.pending && t == s.(pending := s.pending[c := t.pending[c]])
    ensures Step(t, lib, caller, Cancel(c)) == s
  {
    assert t.pending - {c} == s.pending;
  }

  lemma AddedAndRemoved<V>(m: map<string, V>, k: string, v: V)
    ensures k !in m ==> m[k := v] - {k} == m
    ensures k in m ==> (m - {k})[k := m[k]] == m && m[k := v][k := m[k]] == m
  {
  }

  /** An update that waits for approval: approved, its profile is the submitted one; reverted after that, the
      profiles are those before the proposal; cancelled, everything is as before the proposal. */
  lemma UpdateLifeCycle(s: State, lib: Library, author: Caller, approver: Caller, reverter: Caller, p: Profile,
      c: string)
    requires Inv(s, lib) && ValidCaller(author) && Fresh(s, ProposeUpdate(p, c))
    requires c in Step(s, lib, author, ProposeUpdate(p, c)).pending
    ensures var t := Step(s, lib, author, ProposeUpdate(p, c));
            var u := Step(t, lib, approver, Approve(c));
            var v := Step(u, lib, reverter, Revert(c));
            && p.id in s.profiles && t.profiles == s.profiles && Step(t, lib, reverter, Cancel(c)) == s
            && u.profiles == s.profiles[p.id := p] && c in u.approved && c !in u.pending
            && v.profiles == s.profiles && v.approved == s.approved
  {
    hide Inv, Step, ValidCaller, Fresh;
    UpdateWaits(s, lib, author, p, c);
    var t := Step(s, lib, author, ProposeUpdate(p, c));
    var u := Step(t, lib, approver, Approve(c));
    CancelUndoesProposal(s, t, lib, reverter, c);
    ApproveUpdate(t, lib, approver, c);
    RevertUpdate(u, lib, reverter, c);
    AddedAndRemoved(s.approved, c, u.approved[c]);
    AddedAndRemoved(s.profiles, p.id, p);
  }

  lemma ApprovedKeysAreNotBlank(s: State, lib: Library)
    requires Inv(s, lib)
    ensures "" !in s.approved
  {
  }

  lemma CreateWaits(s: State, lib: Library, author: Caller, profile: Profile, freshProfile: string, c: string)
    requires Inv(s, lib) && ValidCaller(author) && Fresh(s, ProposeCreate(profile, freshProfile, c))
    requires c in Step(s, lib, author, ProposeCreate(profile, freshProfile, c)).pending
    ensures var p := if profile.id == "" then profile.(id := freshProfile) else profile;
            var record := Change(c, p.id, CREATE, Profile("", "", "", ""), p, author.app, author.user, "");
            && c !in s.pending && c !in s.approved && c != ""
            && p.id !in s.profiles && ValidApplicationType(p.applicationType) && lib.valid(p) && !NameTaken(s, p)
            && Step(s, lib, author, ProposeCreate(profile, freshProfile, c)) == s.(pending := s.pending[c := record])
  {
    ApprovedKeysAreNotBlank(s, lib);
    hide Inv, Step, NameTaken;
    NameTakenMeans(s, if profile.id == "" then profile.(id := freshProfile) else profile);
    CreateIsProposed(s, lib, author, profile, freshProfile, c);
  }

  lemma ApproveCreate(s: State, lib: Library, caller: Caller, id: string)
    requires id in s.pending && s.pending[id].operation == CREATE
    ensures var c, p, t := s.pending[id], s.pending[id].newEntity, Step(s, lib, caller, Approve(id));
            if !(&& p.id !in s.profiles && ValidApplicationType(p.applicationType) && caller.app == p.applicationType
                 && lib.valid(p) && !NameTaken(s, p)) then t == s
            else
              && t.profiles == s.profiles[p.id := p] && id !in t.pending && t.bindings == s.bindings
              && t.approved == s.approved[id := c.(approvedUser := caller.user)]
  {
    hide NameTaken;
  }

  lemma RevertCreate(s: State, lib: Library, caller: Caller, id: string)
    requires id != "" && id in s.approved && s.approved[id].operation == CREATE
    requires s.approved[id].entityId in s.profiles
    ensures var e, t := s.approved[id].entityId, Step(s, lib, caller, Revert(id));
            && t.approved == s.approved - {id}
            && t.profiles == if ApplicationTypeEquals(caller.app, s.profiles[e].applicationType) && !InUse(s, e)
                             then s.profiles - {e} else s.profiles
  {
    hide InUse;
  }

  /** A create that waits for approval, likewise: it can be approved by a caller of its type, and undone by one as
      long as no telemetry rule is bound to the new profile. */
  lemma CreateLifeCycle(s: State, lib: Library, author: Caller, approver: Caller, reverter: Caller, profile: Profile,
      freshProfile: string, c: string)
    requires Inv(s, lib) && ValidCaller(author) && Fresh(s, ProposeCreate(profile, freshProfile, c))
    requires c in Step(s, lib, author, ProposeCreate(profile, freshProfile, c)).pending
    ensures var p := if profile.id == "" then profile.(id := freshProfile) else profile;
            var t := Step(s, lib, author, ProposeCreate(profile, freshProfile, c));
            var u := Step(t, lib, approver, Approve(c));
            var v := Step(u, lib, reverter, Revert(c));
            var undone := ApplicationTypeEquals(reverter.app, p.applicationType) &&
                forall rule | rule in s.bindings :: s.bindings[rule] != p.id;
            && p.id !in s.profiles && t.profiles == s.profiles && Step(t, lib, reverter, Cancel(c)) == s
            && if approver.app != p.applicationType then u == t
               else
                 && u.profiles == s.profiles[p.id := p] && c in u.approved && c !in u.pending
                 && v.profiles == (if undone then s.profiles else s.profiles[p.id := p]) && v.approved == s.approved
  {
    hide Inv, Step, NameTaken, ValidCaller, Fresh;
    CreateWaits(s, lib, author, profile, freshProfile, c);
    var p := if profile.id == "" then profile.(id := freshProfile) else profile;
    var t := Step(s, lib, author, ProposeCreate(profile, freshProfile, c));
    var u := Step(t, lib, approver, Approve(c));
    SameNameTaken(s, t, p);
    CancelUndoesProposal(s, t, lib, reverter, c);
    ApproveCreate(t, lib, approver, c);
    if approver.app == p.applicationType {
      RevertCreate(u, lib, reverter, c);
      AddedAndRemoved(s.approved, c, u.approved[c]);
      AddedAndRemoved(s.profiles, p.id, p);
    }
  }

  lemma SameNameTaken(s: State, t: State, p: Profile)
    requires t.profiles == s.profiles
    ensures NameTaken(t, p) <==> NameTaken(s, p)
  {
  }

  lemma DeleteWaits(s: State, lib: Library, author: Caller, id: string, c: string)
    requires Inv(s, lib) && ValidCaller(author) && Fresh(s, ProposeDelete(id, c))
    requires c in Step(s, lib, author, ProposeDelete(id, c)).pending
    ensures id in s.profiles && s.profiles[id].id == id && !InUse(s, id)
    ensures c !in s.pending && c !in s.approved && c != ""
    ensures var record := Change(c, id, DELETE, s.profiles[id], Profile("", "", "", ""), author.app, author.user, "");
            Step(s, lib, author, ProposeDelete(id, c)) == s.(pending := s.pending[c := record])
  {
    ProfilesAreKeyed(s, lib);
    hide Inv, Step;
    DeleteIsProposed(s, lib, author, id, c);
  }

  lemma ApproveDelete(s: State, lib: Library, caller: Caller, id: string)
    requires id in s.pending && s.pending[id].operation == DELETE
    ensures var c, e, t := s.pending[id], s.pending[id].oldEntity.id, Step(s, lib, caller, Approve(id));
            if !(e in s.profiles && ApplicationTypeEquals(caller.app, s.profiles[e].applicationType) && !InUse(s, e))
            then t == s
            else
              && t.profiles == s.profiles - {e} && id !in t.pending && t.bindings == s.bindings
              && t.approved == s.approved[id := c.(approvedUser := caller.user)]
  {
    hide InUse;
  }

  lemma RevertDelete(s: State, lib: Library, caller: Caller, id: string)
    requires id != "" && id in s.approved && s.approved[id].operation == DELETE
    ensures var q, t := s.approved[id].oldEntity, Step(s, lib, caller, Revert(id));
            && t.approved == s.approved - {id}
            && t.profiles == if && q.id !in s.profiles && ValidApplicationType(q.applicationType)
                                && caller.app == q.applicationType && lib.valid(q) && !NameTaken(s, q)
                             then s.profiles[q.id := q] else s.profiles
  {
    hide NameTaken;
  }

  lemma NameFreeWithout(s: State, u: State, id: string)
    requires KeyedProfiles(s.profiles) && id in s.profiles && u.profiles == s.profiles - {id}
    ensures NameTaken(u, s.profiles[id]) <==>
            !forall k | k in s.profiles && k != id :: s.profiles[k].name != s.profiles[id].name
  {
    if k :| k in s.profiles && k != id && s.profiles[k].name == s.profiles[id].name {
      assert k in u.profiles && OtherWithName(u.profiles[k], s.profiles[id]);
    }
  }

  /** A delete that waits for approval, likewise: approved, the profile is gone; undone, it is back as it was, if
      the caller may store it and no other profile has its name. */
  lemma DeleteLifeCycle(s: State, lib: Library, author: Caller, approver: Caller, reverter: Caller, id: string,
      c: string)
    requires Inv(s, lib) && ValidCaller(author) && Fresh(s, ProposeDelete(id, c))
    requires c in Step(s, lib, author, ProposeDelete(id, c)).pending
    ensures id in s.profiles
    ensures var q := s.profiles[id];
            var t := Step(s, lib, author, ProposeDelete(id, c));
            var u := Step(t, lib, approver, Approve(c));
            var v := Step(u, lib, reverter, Revert(c));
            var undone :=
              && ValidApplicationType(q.applicationType) && reverter.app == q.applicationType && lib.valid(q)
              && forall k | k in s.profiles && k != id :: s.profiles[k].name != q.name;
            && t.profiles == s.profiles && Step(t, lib, reverter, Cancel(c)) == s
            && if !ApplicationTypeEquals(approver.app, q.applicationType) then u == t
               else
                 && u.profiles == s.profiles - {id} && c in u.approved && c !in u.pending
                 && v.profiles == (if undone then s.profiles else s.profiles - {id}) && v.approved == s.approved
  {
    assert KeyedProfiles(s.profiles);
    hide Inv, Step, NameTaken, InUse, ValidCaller, Fresh, KeyedProfiles;
    DeleteWaits(s, lib, author, id, c);
    var q := s.profiles[id];
    var t := Step(s, lib, author, ProposeDelete(id, c));
    var u := Step(t, lib, approver, Approve(c));
    SameInUse(s, t, id);
    CancelUndoesProposal(s, t, lib, reverter, c);
    ApproveDelete(t, lib, approver, c);
    if ApplicationTypeEquals(approver.app, q.applicationType) {
      RevertDelete(u, lib, reverter, c);
      NameFreeWithout(s, u, id);
      AddedAndRemoved(s.approved, c, u.approved[c]);
      AddedAndRemoved(s.profiles, id, q);
    }
  }

  lemma SameInUse(s: State, t: State, id: string)
    requires t.bindings == s.bindings
    ensures InUse(t, id) <==> InUse(s, id)
  {
  }

  function ProposedAs(request: Request): Option<string> {
    match request
    case ProposeCreate(_, _, c) => Some(c)
    case ProposeUpdate(_, c) => Some(c)
    case ProposeDelete(_, c) => Some(c)
    case _ => None
  }

  /** The record is the one that was proposed, but for who approved it. */
  predicate RecordOf(c: Change, proposed: Change) {
    c == proposed.(approvedUser := c.approvedUser)
  }

  /** What the stores hold under the identifier is the proposed record. */
  predicate OnRecord(s: State, c: string, proposed: Change) {
    (c in s.pending ==> s.pending[c] == proposed) && (c in s.approved ==> RecordOf(s.approved[c], proposed))
  }

  lemma StepKeepsRecord(s: State, lib: Library, caller: Caller, request: Request, c: string, proposed: Change)
    requires OnRecord(s, c, proposed) && ProposedAs(request) != Some(c)
    ensures OnRecord(Step(s, lib, caller, request), c, proposed)
  {
    hide MayCreate, MayDelete, MayPropose, NameTaken, Repeats, Applied, Undone;
  }

  /** As long as its identifier is not used for another proposal, the record of a change does not change. */
  lemma {:induction false} RecordStays(s: State, lib: Library, served: seq<Served>, c: string)
    requires c in s.pending && c !in s.approved
    requires forall n | 0 <= n < |served| :: ProposedAs(served[n].request) != Some(c)
    ensures OnRecord(Run(s, lib, served), c, s.pending[c])
  {
    hide Step;
    if served != [] {
      var n := |served| - 1;
      RecordStays(s, lib, served[..n], c);
      StepKeepsRecord(Run(s, lib, served[..n]), lib, served[n].caller, served[n].request, c, s.pending[c]);
    }
  }

  /** Whatever is requested in between: when a proposed update that still waits is approved, the submitted profile is
      stored in place of what is there by then; when it is reverted at some later time, the profile is again what
      it was when the update was proposed. If the profile is gone by then, nothing is stored. */
  lemma UpdateOverRuns(s: State, lib: Library, author: Caller, caller: Caller, p: Profile, c: string,
      served: seq<Served>)
    requires Inv(s, lib) && ValidCaller(author) && Fresh(s, ProposeUpdate(p, c))
    requires c in Step(s, lib, author, ProposeUpdate(p, c)).pending
    requires forall n | 0 <= n < |served| :: ProposedAs(served[n].request) != Some(c)
    ensures p.id in s.profiles
    ensures var t := Run(Step(s, lib, author, ProposeUpdate(p, c)), lib, served);
            && (c in t.pending ==>
                  Step(t, lib, caller, Approve(c)).profiles ==
                  if p.id in t.profiles then t.profiles[p.id := p] else t.profiles)
            && (c in t.approved ==>
                  Step(t, lib, caller, Revert(c)).profiles ==
                  if p.id in t.profiles then t.profiles[p.id := s.profiles[p.id]] else t.profiles)
  {
    hide Inv, Step, Run, ValidCaller, Fresh;
    UpdateWaits(s, lib, author, p, c);
    var r := Step(s, lib, author, ProposeUpdate(p, c));
    var t := Run(r, lib, served);
    RecordStays(r, lib, served, c);
    if c in t.pending {
      ApproveUpdate(t, lib, caller, c);
    }
    if c in t.approved {
      RevertUpdate(t, lib, caller, c);
    }
  }

  lemma ApproveIs(s: State, lib: Library, caller: Caller, id: string)
    requires Inv(s, lib)
    ensures var t := Step(s, lib, caller, Request.Approve(id));
            if id !in s.pending || Applied(s, lib, caller, s.pending[id]).None? then t == s
            else
              var c := s.pending[id];
              t == State(OnOtherEntities(s.pending, c.entityId), s.approved[id := c.(approvedUser := caller.user)],
                         Applied(s, lib, caller, c).value, s.bindings)
    ensures id in s.pending ==> s.pending[id].id == id && (s.pending[id].operation != DELETE ==>
        s.pending[id].newEntity.id != "")
  {
  }

  lemma WithoutOneOfEntity(pending: map<string, Change>, id: string)
    requires id in pending
    ensures OnOtherEntities(pending - {id}, pending[id].entityId) == OnOtherEntities(pending, pending[id].entityId)
  {
  }

  // ---- the service

  class ChangeService {
    var pending: map<string, Change>
    var approved: map<string, Change>
    var profiles: map<string, Profile>
    var bindings: map<string, string>
    const lib: Library

    constructor (lib: Library)
      ensures this.lib == lib && Stores() == State(map[], map[], map[], map[])
    {
      this.lib := lib;
      pending, approved, profiles, bindings := map[], map[], map[], map[];
    }

    ghost function Stores(): State
      reads this
    {
      State(pending, approved, profiles, bindings)
    }

    method BeforeSavingProfile(p: Profile) returns (o: Outcome)
      ensures o.Done? <==> lib.valid(p) && !NameTaken(Stores(), p)
    {
      if !lib.valid(p) {
        return BadRequest;
      }
      var taken := AnyValue(profiles, other => OtherWithName(other, p));
      o := if taken then Conflict else Done;
    }

    method BeforeRemoving(caller: Caller, id: string) returns (o: Outcome)
      ensures o.Done? <==> MayDelete(Stores(), caller, id)
    {
      if id !in profiles || !ApplicationTypeEquals(caller.app, profiles[id].applicationType) {
        return NotFound;
      }
      var used := AnyValue(bindings, to => to == id);
      o := if used then Conflict else Done;
    }

    method CreatePermanentTelemetryProfile(caller: Caller, p: Profile) returns (o: Outcome)
      modifies this`profiles
      ensures o.Done? <==> old(MayCreate(Stores(), lib, caller, p))
      ensures profiles == if o.Done? then old(profiles)[p.id := p] else old(profiles)
    {
      if p.id in profiles {
        return Conflict;
      }
      if !MayWrite(caller, p) {
        return Forbidden;
      }
      o := BeforeSavingProfile(p);
      if o.Done? {
        profiles := profiles[p.id := p];
      }
    }

    method UpdatePermanentTelemetryProfile(p: Profile) returns (o: Outcome)
      modifies this`profiles
      ensures o.Done? <==> p.id != "" && p.id in old(profiles)
      ensures profiles == if o.Done? then old(profiles)[p.id := p] else old(profiles)
    {
      if p.id == "" {
        return BadRequest;
      }
      if p.id !in profiles {
        return NotFound;
      }
      profiles := profiles[p.id := p];
      return Done;
    }

    method DeletePermanentTelemetryProfile(caller: Caller, id: string) returns (o: Outcome)
      requires ValidCaller(caller)
      modifies this`profiles
      ensures Stores() == Step(old(Stores()), lib, caller, DeleteNow(id))
      ensures o.Done? <==> old(MayDelete(Stores(), caller, id))
      ensures profiles == if o.Done? then old(profiles) - {id} else old(profiles)
    {
      o := BeforeRemoving(caller, id);
      if o.Done? {
        profiles := profiles - {id};
      }
    }

    /** Checks a proposed change and stores it as pending. */
    method CreateOneChange(c: Change) returns (o: Outcome)
      modifies this`pending
      ensures o.Done? <==> old(MayPropose(Stores(), lib, c))
      ensures o.Done? <==> && c.id != "" && c.author != "" && c.entityId != ""
                           && (c.operation != DELETE ==> c.newEntity != Profile("", "", "", ""))
                           && (c.operation != CREATE ==> c.oldEntity != Profile("", "", "", ""))
                           && forall k | k in old(pending) && old(pending)[k].entityId == c.entityId ::
                                !lib.sameChange(old(pending)[k], c)
      ensures pending == if o.Done? then old(pending)[c.id := c] else old(pending)
    {
      if !ValidChange(c) {
        return BadRequest;
      }
      assert forall k | k in pending ::
          SameOnEntity(pending[k], c, lib) <==> pending[k].entityId == c.entityId && lib.sameChange(pending[k], c);
      var repeated := AnyValue(pending, existing => SameOnEntity(existing, c, lib));
      if repeated {
        return Conflict;
      }
      pending := pending[c.id := c];
      return Done;
    }

    method WriteCreateChange(caller: Caller, profile: Profile, freshProfile: string, freshChange: string)
      returns (o: Outcome)
      requires ValidCaller(caller) && Fresh(Stores(), ProposeCreate(profile, freshProfile, freshChange))
      modifies this`pending
      ensures Stores() == Step(old(Stores()), lib, caller, ProposeCreate(profile, freshProfile, freshChange))
      ensures var p := Identified(profile, freshProfile);
              o.Done? <==> && old(MayCreate(Stores(), lib, caller, p))
                           && (forall k | k in old(pending) :: !Repeats(old(pending)[k], p, lib))
                           && old(MayPropose(Stores(), lib, CreateChange(p, caller, freshChange)))
    {
      hide MayPropose, NameTaken;
      var p := Identified(profile, freshProfile);
      if !MayWrite(caller, p) {
        return Forbidden;
      }
      if p.id in profiles {
        return Conflict;
      }
      o := BeforeSavingProfile(p);
      if !o.Done? {
        return;
      }
      var repeated := AnyValue(pending, c => Repeats(c, p, lib));
      if repeated {
        return Conflict;
      }
      o := CreateOneChange(CreateChange(p, caller, freshChange));
    }

    method WriteUpdateChangeOrSave(caller: Caller, p: Profile, freshChange: string) returns (o: Outcome)
      requires ValidCaller(caller) && Fresh(Stores(), ProposeUpdate(p, freshChange))
      modifies this`pending, this`profiles
      ensures Stores() == Step(old(Stores()), lib, caller, ProposeUpdate(p, freshChange))
      ensures o.Done? <==> && MayWrite(caller, p) && p.id != "" && p.id in old(profiles)
                           && lib.valid(p) && !old(NameTaken(Stores(), p))
                           && (|| lib.sameProfile(p, old(profiles)[p.id])
                               || old(MayPropose(Stores(), lib, UpdateChange(profiles[p.id], p, caller, freshChange))))
    {
      hide MayPropose, NameTaken;
      if !MayWrite(caller, p) {
        return Forbidden;
      }
      if p.id == "" || p.id !in profiles {
        return NotFound;
      }
      o := BeforeSavingProfile(p);
      if !o.Done? {
        return;
      }
      if lib.sameProfile(p, profiles[p.id]) {
        profiles := profiles[p.id := p];
        return Done;
      }
      o := CreateOneChange(UpdateChange(profiles[p.id], p, caller, freshChange));
    }

    method WriteDeleteChange(caller: Caller, id: string, freshChange: string) returns (o: Outcome)
      requires ValidCaller(caller) && Fresh(Stores(), ProposeDelete(id, freshChange))
      modifies this`pending
      ensures Stores() == Step(old(Stores()), lib, caller, ProposeDelete(id, freshChange))
      ensures o.Done? <==> && old(MayDelete(Stores(), caller, id))
                           && old(MayPropose(Stores(), lib, DeleteChange(profiles[id], caller, freshChange)))
    {
      hide MayPropose;
      o := BeforeRemoving(caller, id);
      if o.Done? {
        o := CreateOneChange(DeleteChange(profiles[id], caller, freshChange));
      }
    }

    method CancelChange(caller: Caller, id: string) returns (o: Outcome)
      requires ValidCaller(caller) && KeyedChanges(pending)
      modifies this`pending
      ensures Stores() == Step(old(Stores()), lib, caller, Cancel(id))
      ensures o.Done? <==> id in old(pending)
    {
      if id == "" {
        return BadRequest;
      }
      if id !in pending {
        return NotFound;
      }
      pending := pending - {id};
      return Done;
    }

    /** The pending changes on a profile. */
    method GetChangesByEntityId(entityId: string) returns (ids: seq<string>)
      ensures forall k :: k in ids <==> k in pending && pending[k].entityId == entityId
    {
      ids := [];
      var keys := ListKeys(pending);
      for n := 0 to |keys|
        invariant forall k :: k in ids <==> k in keys[..n] && pending[k].entityId == entityId
      {
        if pending[keys[n]].entityId == entityId {
          ids := ids + [keys[n]];
        }
      }
    }

    /** Deletes what is still pending on each of the profiles. */
    method CancelApprovedChangesByEntityId(entityIds: seq<string>)
      modifies this`pending
      ensures pending == map k | k in old(pending) && old(pending)[k].entityId !in entityIds :: old(pending)[k]
    {
      for n := 0 to |entityIds|
        invariant pending == map k | k in old(pending) && old(pending)[k].entityId !in entityIds[..n] :: old(pending)[k]
      {
        var ids := GetChangesByEntityId(entityIds[n]);
        ghost var before := pending;
        for m := 0 to |ids|
          invariant pending == map k | k in before && k !in ids[..m] :: before[k]
        {
          pending := pending - {ids[m]};
        }
        assert ids[..|ids|] == ids && entityIds[..n + 1] == entityIds[..n] + [entityIds[n]];
      }
    }

    /** Cancels what is pending on a profile: one pass per pending change, each clearing the profile. */
    method CancelRest(entityId: string)
      modifies this`pending
      ensures pending == OnOtherEntities(old(pending), entityId)
    {
      var left := GetChangesByEntityId(entityId);
      var entityIds := seq(|left|, n requires 0 <= n < |left| => entityId);
      assert left != [] ==> entityIds[0] == entityId;
      assert forall k | k in pending && pending[k].entityId == entityId :: k in left;
      CancelApprovedChangesByEntityId(entityIds);
    }

    method ApplyOperation(caller: Caller, change: Change) returns (o: Outcome)
      requires ValidCaller(caller) && (change.operation != DELETE ==> change.newEntity.id != "")
      modifies this`profiles
      ensures o.Done? <==> Applied(old(Stores()), lib, caller, change).Some?
      ensures profiles == if o.Done? then Applied(old(Stores()), lib, caller, change).value else old(profiles)
    {
      hide MayCreate, MayDelete;
      match change.operation {
        case CREATE => o := CreatePermanentTelemetryProfile(caller, change.newEntity);
        case UPDATE => o := UpdatePermanentTelemetryProfile(change.newEntity);
        case DELETE => o := DeletePermanentTelemetryProfile(caller, change.oldEntity.id);
      }
    }

    method Approve(caller: Caller, id: string) returns (o: Outcome)
      requires ValidCaller(caller) && Inv(Stores(), lib)
      modifies this`pending, this`approved, this`profiles
      ensures Stores() == Step(old(Stores()), lib, caller, Request.Approve(id))
      ensures o.Done? <==> id in old(pending) && Applied(old(Stores()), lib, caller, old(pending)[id]).Some?
    {
      hide Applied, Step, Inv, OnOtherEntities;
      ApproveIs(Stores(), lib, caller, id);
      if id !in pending {
        return NotFound;
      }
      var change := pending[id];
      o := ApplyOperation(caller, change);
      if !o.Done? {
        return;
      }
      approved := approved[change.id := change.(approvedUser := caller.user)];
      pending := pending - {change.id};
      WithoutOneOfEntity(old(pending), change.id);
      CancelRest(change.entityId);
    }

    /** Errors of the inner create, update or delete are dropped. */
    method Revert(caller: Caller, id: string) returns (o: Outcome)
      requires ValidCaller(caller) && Inv(Stores(), lib)
      modifies this`approved, this`profiles
      ensures Stores() == Step(old(Stores()), lib, caller, Request.Revert(id))
      ensures o == if id == "" then BadRequest
                   else if id !in old(approved) then NotFound
                   else
                     var c := old(approved)[id];
                     if c.operation == CREATE && c.entityId !in old(profiles) then Crash else Done
    {
      hide MayCreate, MayDelete;
      if id == "" {
        return BadRequest;
      }
      if id !in approved {
        return NotFound;
      }
      var change := approved[id];
      var ignored;
      if change.operation == DELETE {
        ignored := CreatePermanentTelemetryProfile(caller, change.oldEntity);
      } else if change.operation == CREATE {
        if change.entityId !in profiles {
          return Crash;
        }
        ignored := DeletePermanentTelemetryProfile(caller, profiles[change.entityId].id);
      } else {
        ignored := UpdatePermanentTelemetryProfile(change.oldEntity);
      }
      approved := approved - {id};
      return Done;
    }
  }
}
