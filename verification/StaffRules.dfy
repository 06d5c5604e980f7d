/** Steps over the staff of one issuer that is not a network, and what they keep. */
module StaffRules {
  import opened Basics

  datatype Role = Owner | Editor | Staff

  datatype Office = Office(
    staff: map<User, Role>,
    createdBy: Option<User>,
    verified: bool,
    email: Option<string>)

  /** Addresses of the users, which staff requests do not change. */
  datatype Directory = Directory(verifiedEmails: User -> set<string>, primaryEmail: User -> string)

  function WithRole(staff: map<User, Role>, role: Role): set<User> {
    set u | u in staff && staff[u] == role
  }

  function Owners(office: Office): set<User> {
    WithRole(office.staff, Owner)
  }

  // ---------- ensure_owner ----------

  /** The role goes to an editor if there is one. */
  predicate MayLead(office: Office, u: User) {
    u in office.staff && (WithRole(office.staff, Editor) != {} ==> office.staff[u] == Editor)
  }

  /** The branches of ensure_owner. The choice among several candidates is the database's; in the last branch
      with staff present, the role is set on a user record and the staff table stays as it is. */
  ghost predicate EnsuresOwner(s: Office, t: Office) {
    if Owners(s) != {} && s.createdBy.Some? then t == s
    else if s.createdBy.Some? && s.createdBy.value in s.staff then
      t == s.(staff := s.staff[s.createdBy.value := Owner])
    else if s.createdBy.None? then
      if Owners(s) != {} then exists u :: u in Owners(s) && t == s.(createdBy := Some(u))
      else if s.staff != map[] then
        exists u :: MayLead(s, u) && t == s.(createdBy := Some(u), staff := s.staff[u := Owner])
      else t == s.(verified := false)
    else if s.staff != map[] then t == s
    else t == s.(staff := map[s.createdBy.value := Owner])
  }

  /** Who becomes owner and creator, and when the issuer is no longer verified. */
  ghost predicate Promotes(s: Office, t: Office) {
    && (s.createdBy.Some? ==> t.createdBy == s.createdBy)
    && (s.createdBy.Some? && s.createdBy.value in s.staff && (forall u | u in s.staff :: s.staff[u] != Owner) ==>
          t.staff == s.staff[s.createdBy.value := Owner])
    && (s.createdBy.Some? && s.staff == map[] ==> t.staff == map[s.createdBy.value := Owner])
    && (s.createdBy.None? && s.staff != map[] ==>
          && t.createdBy.Some? && t.createdBy.value in s.staff && t.staff == s.staff[t.createdBy.value := Owner]
          && ((exists u :: u in s.staff && s.staff[u] == Owner) ==> s.staff[t.createdBy.value] == Owner)
          && ((forall u | u in s.staff :: s.staff[u] != Owner) && (exists u :: u in s.staff && s.staff[u] == Editor) ==>
                s.staff[t.createdBy.value] == Editor))
    && t.verified == (s.verified && !(s.createdBy.None? && s.staff == map[]))
  }

  lemma EnsureOwnerPromotes(s: Office, t: Office)
    requires EnsuresOwner(s, t)
    ensures Promotes(s, t)
  {
    assert forall u | u in s.staff :: (s.staff[u] == Owner <==> u in Owners(s))
                                      && (s.staff[u] == Editor <==> u in WithRole(s.staff, Editor));
    if s.createdBy.None? && s.staff != map[] {
      if Owners(s) != {} {
        var u :| u in Owners(s) && t == s.(createdBy := Some(u));
        assert s.staff[u := Owner] == s.staff;
      }
    }
  }

  /** No owner, and nobody ensure_owner could promote: a creator who left a staff that goes on without him, or
      neither creator nor staff. */
  predicate Leaderless(s: Office) {
    && Owners(s) == {}
    && (if s.createdBy.Some? then s.createdBy.value !in s.staff && s.staff != map[] else s.staff == map[])
  }

  /** Exactly when ensure_owner leaves an owner, and what else it may touch. */
  lemma EnsureOwnerExactly(s: Office, t: Office)
    requires EnsuresOwner(s, t)
    ensures Owners(t) == {} <==> Leaderless(s)
    ensures Owners(s) <= Owners(t)
    ensures Owners(s) != {} ==> t.staff == s.staff
    ensures s.createdBy.Some? ==> t.createdBy == s.createdBy
    ensures t.createdBy.None? <==> s.createdBy.None? && s.staff == map[]
    ensures s.staff.Keys <= t.staff.Keys && (s.staff != map[] ==> s.staff.Keys == t.staff.Keys)
    ensures t.email == s.email
    ensures forall u | u in s.staff :: t.staff[u] == s.staff[u] || t.staff[u] == Owner
    ensures Owners(s) == {} && Owners(t) != {} ==> |Owners(t)| == 1
  {
    EnsureOwnerPromotesOne(s, t);
    if s.createdBy.Some? {
      var c := s.createdBy.value;
      if c in s.staff && Owners(s) == {} {
        assert c in Owners(t);
      } else if s.staff == map[] {
        assert c in Owners(t);
      }
    } else if Owners(s) == {} && s.staff != map[] {
      var u :| MayLead(s, u) && t == s.(createdBy := Some(u), staff := s.staff[u := Owner]);
      assert u in Owners(t);
    }
  }

  lemma EnsureOwnerPromotesOne(s: Office, t: Office)
    requires EnsuresOwner(s, t)
    ensures Owners(s) == {} && Owners(t) != {} ==> |Owners(t)| == 1
  {
    if Owners(s) == {} && Owners(t) != {} {
      var o :| o in Owners(t);
      assert forall u | u in s.staff :: u in Owners(s) <==> s.staff[u] == Owner;
      assert forall u | u in Owners(t) :: u == o;
      assert Owners(t) == {o};
    }
  }

  /** What the documentation promises: an owner and a creator, whenever there is staff and the creator is
      unset or on it. */
  lemma OwnerAndCreator(s: Office, t: Office)
    requires EnsuresOwner(s, t) && s.staff != map[]
    requires s.createdBy.Some? ==> s.createdBy.value in s.staff
    ensures Owners(t) != {} && t.createdBy.Some?
  {
    EnsureOwnerExactly(s, t);
  }

  /** The last branch at work: a creator who left, an editor who is not promoted. */
  lemma DepartedCreatorExample()
    ensures var s := Office(map[2 := Editor], Some(1), true, None);
            Leaderless(s) && forall t :: EnsuresOwner(s, t) ==> Owners(t) == {}
  {
    var s := Office(map[2 := Editor], Some(1), true, None);
    assert 2 in s.staff;
    forall t | EnsuresOwner(s, t)
      ensures Owners(t) == {}
    {
      EnsureOwnerExactly(s, t);
    }
  }

  lemma EnsureOwnerTwice(s: Office, t: Office, u: Office)
    requires EnsuresOwner(s, t) && EnsuresOwner(t, u)
    ensures u == t
  {
  }

  // ---------- IssuerStaff.delete ----------

  predicate IsContact(dir: Directory, s: Office, u: User) {
    s.email.Some? && s.email.value in dir.verifiedEmails(u)
  }

  ghost predicate NewContact(dir: Directory, s: Office, t: Office) {
    exists m ::
      && EnsuresOwner(s, m)
      && if Owners(m) == {} then t == m
         else exists o :: o in Owners(m) && EnsuresOwner(m.(email := Some(dir.primaryEmail(o))), t)
  }

  function Creator(s: Office): set<User> {
    if s.createdBy.Some? then {s.createdBy.value} else {}
  }

  /** Exactly when an owner is left, who then is the contact. */
  lemma NewContactExactly(dir: Directory, s: Office, t: Office)
    requires NewContact(dir, s, t)
    ensures Owners(t) == {} <==> Leaderless(s)
    ensures if Owners(t) == {} then t.email == s.email
            else exists o :: o in Owners(t) && t.email == Some(dir.primaryEmail(o))
    ensures Owners(s) <= Owners(t) && (Owners(s) != {} ==> t.staff == s.staff)
    ensures s.createdBy.Some? ==> t.createdBy == s.createdBy
    ensures s.staff.Keys <= t.staff.Keys && (s.staff != map[] ==> s.staff.Keys == t.staff.Keys)
    ensures forall v | v in s.staff :: t.staff[v] == s.staff[v] || t.staff[v] == Owner
    ensures s.staff == map[] ==> t.staff.Keys == Creator(s)
  {
    var m :| && EnsuresOwner(s, m)
             && if Owners(m) == {} then t == m
                else exists o :: o in Owners(m) && EnsuresOwner(m.(email := Some(dir.primaryEmail(o))), t);
    EnsureOwnerExactly(s, m);
    EnsureOwnerWithoutStaff(s, m);
    if Owners(m) != {} {
      var o :| o in Owners(m) && EnsuresOwner(m.(email := Some(dir.primaryEmail(o))), t);
      EnsureOwnerExactly(m.(email := Some(dir.primaryEmail(o))), t);
      assert o in Owners(t);
    }
  }

  lemma EnsureOwnerWithoutStaff(s: Office, t: Office)
    requires EnsuresOwner(s, t)
    ensures s.staff == map[] ==> t.staff.Keys == Creator(s)
  {
  }

  ghost predicate Deletes(dir: Directory, s: Office, u: User, t: Office) {
    var left := s.(staff := s.staff - {u});
    if IsContact(dir, s, u) then NewContact(dir, left, t) else t == left
  }

  /** Leaves the rest of the staff alone as long as an owner is among them. */
  lemma DeleteWithOtherOwner(dir: Directory, s: Office, u: User, t: Office)
    requires Deletes(dir, s, u, t) && Owners(s) - {u} != {}
    ensures t.staff == s.staff - {u}
    ensures Owners(t) == Owners(s) - {u}
    ensures s.createdBy.Some? ==> t.createdBy == s.createdBy
    ensures t.verified == s.verified
  {
  }

  /** Everyone else stays on the staff, and the creator is not replaced. */
  lemma DeleteKeepsMembers(dir: Directory, s: Office, u: User, t: Office)
    requires Deletes(dir, s, u, t)
    ensures s.staff.Keys - {u} <= t.staff.Keys
    ensures s.createdBy.Some? ==> t.createdBy == s.createdBy
  {
  }

  /** Who is left: everyone else; or the creator, as owner again, when the contact was the only one. */
  lemma DeleteExactly(dir: Directory, s: Office, u: User, t: Office)
    requires Deletes(dir, s, u, t)
    ensures t.staff.Keys == if IsContact(dir, s, u) && s.staff.Keys <= {u} then Creator(s) else s.staff.Keys - {u}
    ensures Owners(s) - {u} <= Owners(t)
    ensures forall v | v in s.staff && v in t.staff && v != u :: t.staff[v] == s.staff[v] || t.staff[v] == Owner
    ensures Owners(t) == {} <==>
              Owners(s) <= {u} && (IsContact(dir, s, u) ==> Leaderless(s.(staff := s.staff - {u})))
    ensures if IsContact(dir, s, u) && Owners(t) != {} then
              exists o :: o in Owners(t) && t.email == Some(dir.primaryEmail(o))
            else t.email == s.email
  {
    var left := s.(staff := s.staff - {u});
    assert Owners(left) == Owners(s) - {u};
    assert left.staff.Keys == s.staff.Keys - {u};
    if IsContact(dir, s, u) {
      NewContactExactly(dir, left, t);
      assert left.staff == map[] <==> left.staff.Keys == {};
    }
  }

  /** A deletion followed by saving the issuer, which runs ensure_owner again: exactly when an owner is left. */
  lemma DeleteAndSave(dir: Directory, s: Office, u: User, t: Office, saved: Office)
    requires Deletes(dir, s, u, t) && EnsuresOwner(t, saved)
    ensures Owners(saved) == {} <==> Leaderless(s.(staff := s.staff - {u}))
    ensures Owners(s) - {u} <= Owners(saved)
  {
    var left := s.(staff := s.staff - {u});
    assert Owners(left) == Owners(s) - {u};
    EnsureOwnerExactly(t, saved);
    if IsContact(dir, s, u) {
      var m :| && EnsuresOwner(left, m)
               && if Owners(m) == {} then t == m
                  else exists o :: o in Owners(m) && EnsuresOwner(m.(email := Some(dir.primaryEmail(o))), t);
      EnsureOwnerExactly(left, m);
      if Owners(m) == {} {
        EnsureOwnerTwice(left, m, saved);
      } else {
        var o :| o in Owners(m) && EnsuresOwner(m.(email := Some(dir.primaryEmail(o))), t);
        EnsureOwnerExactly(m.(email := Some(dir.primaryEmail(o))), t);
      }
    }
  }

  // ---------- The staff endpoint ----------

  datatype Action = Add(role: Role) | Modify(role: Role) | RemoveUser

  datatype Response = Ok | BadRequest | Forbidden

  /** POST on the staff list. `privileged` requests carry an admin or issuer token instead of owner rights. */
  ghost predicate Posts(
    dir: Directory, s: Office, requester: User, privileged: bool, target: User, action: Action, t: Office, r: Response)
  {
    if !privileged && requester !in Owners(s) then r == Forbidden && t == s
    else if target == requester then r == BadRequest && t == s
    else match action
      case Add(role) =>
        if target in s.staff then r == BadRequest && t == s
        else r == Ok && t == s.(staff := s.staff[target := role])
      case Modify(role) =>
        if target !in s.staff then r == BadRequest && t == s
        else r == Ok && t == s.(staff := s.staff[target := role])
      case RemoveUser =>
        r == Ok
        && if target in s.staff then exists m :: Deletes(dir, s, target, m) && EnsuresOwner(m, t)
           else EnsuresOwner(s, t)
  }

  /** Removing someone while another owner is there removes just that one. */
  lemma RemovalWithOtherOwner(
    dir: Directory, s: Office, requester: User, privileged: bool, target: User, t: Office)
    requires Posts(dir, s, requester, privileged, target, RemoveUser, t, Ok)
    ensures (exists o :: o in s.staff && s.staff[o] == Owner && o != target) ==> t.staff == s.staff - {target}
  {
    if o :| o in s.staff && s.staff[o] == Owner && o != target {
      assert o in Owners(s) - {target};
      if target in s.staff {
        var m :| Deletes(dir, s, target, m) && EnsuresOwner(m, t);
        DeleteWithOtherOwner(dir, s, target, m);
        EnsureOwnerExactly(m, t);
      } else {
        EnsureOwnerExactly(s, t);
        assert s.staff - {target} == s.staff;
      }
    }
  }

  /** A request by an owner leaves that owner in place, and everyone but the target as they were. */
  lemma OwnerRequestKeepsOwner(
    dir: Directory, s: Office, requester: User, target: User, action: Action, t: Office, r: Response)
    requires Posts(dir, s, requester, false, target, action, t, r) && r != Forbidden
    ensures requester in Owners(t)
    ensures forall u | u != target :: u in t.staff <==> u in s.staff
    ensures forall u | u != target && u in s.staff :: t.staff[u] == s.staff[u]
  {
    if r == Ok && action.RemoveUser? {
      if target in s.staff {
        var m :| Deletes(dir, s, target, m) && EnsuresOwner(m, t);
        assert requester in Owners(s) - {target};
        DeleteWithOtherOwner(dir, s, target, m);
        EnsureOwnerExactly(m, t);
      } else {
        EnsureOwnerExactly(s, t);
      }
    }
  }

  /** Exactly when a request, whoever makes it, leaves the issuer without an owner: changing the role of the
      only owner, or removing the only owner when ensure_owner finds nobody. */
  lemma RequestLosesOwnerExactly(
    dir: Directory, s: Office, requester: User, privileged: bool, target: User, action: Action, t: Office, r: Response)
    requires Posts(dir, s, requester, privileged, target, action, t, r) && Owners(s) != {}
    ensures Owners(t) == {} <==>
              && r == Ok && Owners(s) == {target}
              && ((action.Modify? && action.role != Owner)
                  || (action.RemoveUser? && Leaderless(s.(staff := s.staff - {target}))))
  {
    var left := s.(staff := s.staff - {target});
    assert Owners(left) == Owners(s) - {target};
    if r == Ok {
      if action.RemoveUser? {
        if target in s.staff {
          var m :| Deletes(dir, s, target, m) && EnsuresOwner(m, t);
          DeleteAndSave(dir, s, target, m, t);
        } else {
          EnsureOwnerExactly(s, t);
        }
      } else {
        assert Owners(t) == Owners(left) + if action.role == Owner then {target} else {};
      }
    }
  }

  // ---------- Reconciliation ----------

  datatype Entry = Entry(user: User, role: Role)

  function Users(value: seq<Entry>): set<User> {
    set e | e in value :: e.user
  }

  /** Users not on the staff come on it, with the last role requested for them; the others keep their role. */
  function Added(staff: map<User, Role>, existing: set<User>, value: seq<Entry>): map<User, Role> {
    if value == [] then staff
    else
      var last := value[|value| - 1];
      var before := Added(staff, existing, value[..|value| - 1]);
      if last.user in existing then before else before[last.user := last.role]
  }

  lemma {:induction false} AddedKeys(staff: map<User, Role>, existing: set<User>, value: seq<Entry>)
    requires staff.Keys == existing
    ensures Added(staff, existing, value).Keys == existing + Users(value)
    ensures forall u | u in existing :: Added(staff, existing, value)[u] == staff[u]
    decreases |value|
  {
    if value != [] {
      var k := |value| - 1;
      AddedKeys(staff, existing, value[..k]);
      assert value == value[..k] + [value[k]];
    }
  }

  /** No later entry is for the same user. */
  predicate LastEntry(value: seq<Entry>, i: nat) {
    i < |value| && forall j | i < j < |value| :: value[j].user != value[i].user
  }

  /** Of several entries for a new member the last one counts. */
  lemma {:induction false} AddedRoles(staff: map<User, Role>, existing: set<User>, value: seq<Entry>, i: nat)
    requires LastEntry(value, i) && value[i].user !in existing
    ensures value[i].user in Added(staff, existing, value)
    ensures Added(staff, existing, value)[value[i].user] == value[i].role
    decreases |value|
  {
    var k := |value| - 1;
    if i < k {
      assert value[i] == value[..k][i];
      AddedRoles(staff, existing, value[..k], i);
    }
  }

  lemma {:induction false} LastEntryFor(value: seq<Entry>, u: User) returns (i: nat)
    requires u in Users(value)
    ensures LastEntry(value, i) && value[i].user == u
    decreases |value|
  {
    var k := |value| - 1;
    if value[k].user == u {
      i := k;
    } else {
      assert value == value[..k] + [value[k]];
      i := LastEntryFor(value[..k], u);
    }
  }

  /** Someone on the old staff is an owner, or some new member is meant to be. */
  ghost predicate HasLeader(staff: map<User, Role>, value: seq<Entry>) {
    || (exists u :: u in staff && staff[u] == Owner)
    || (exists i: nat :: LastEntry(value, i) && value[i].user !in staff && value[i].role == Owner)
  }

  lemma LeaderIsAdded(staff: map<User, Role>, value: seq<Entry>)
    requires HasLeader(staff, value)
    ensures WithRole(Added(staff, staff.Keys, value), Owner) != {}
  {
    var added := Added(staff, staff.Keys, value);
    AddedKeys(staff, staff.Keys, value);
    if u :| u in staff && staff[u] == Owner {
      assert u in WithRole(added, Owner);
    } else {
      var i: nat :| LastEntry(value, i) && value[i].user !in staff && value[i].role == Owner;
      AddedRoles(staff, staff.Keys, value, i);
      assert value[i].user in WithRole(added, Owner);
    }
  }

  lemma AddedLeader(staff: map<User, Role>, value: seq<Entry>)
    requires WithRole(Added(staff, staff.Keys, value), Owner) != {}
    ensures HasLeader(staff, value)
  {
    AddedKeys(staff, staff.Keys, value);
    var u :| u in WithRole(Added(staff, staff.Keys, value), Owner);
    if u !in staff {
      var i := LastEntryFor(value, u);
      AddedRoles(staff, staff.Keys, value, i);
    }
  }

  /** Requested members have the role they had, or if they are new the last one requested for them, or else that of
      an owner who was promoted. */
  ghost predicate RolesUpTo(staff: map<User, Role>, value: seq<Entry>, last: map<User, Role>, promoted: bool) {
    && (forall i: nat | LastEntry(value, i) ::
          var u := value[i].user;
          var role := if u in staff then staff[u] else value[i].role;
          u in last && (last[u] == role || (promoted && last[u] == Owner)))
  }

  /** Nobody is left who was not requested, except one former owner where there is no other owner. */
  ghost predicate OnlyRequested(staff: map<User, Role>, value: seq<Entry>, last: map<User, Role>) {
    forall u | u in last && (forall e | e in value :: e.user != u) ::
      u in staff && staff[u] == Owner && forall v | v in last && last[v] == Owner :: v == u
  }

  lemma RolesOfAdded(staff: map<User, Role>, value: seq<Entry>, last: map<User, Role>, promoted: bool)
    requires var added := Added(staff, staff.Keys, value);
             forall u | u in Users(value) && u in added ::
               u in last && (last[u] == added[u] || (promoted && last[u] == Owner))
    ensures RolesUpTo(staff, value, last, promoted)
  {
    AddedKeys(staff, staff.Keys, value);
    forall i: nat | LastEntry(value, i)
      ensures var u := value[i].user;
              var role := if u in staff then staff[u] else value[i].role;
              u in last && (last[u] == role || (promoted && last[u] == Owner))
    {
      assert value[i] in value && value[i].user in Users(value);
      if value[i].user !in staff {
        AddedRoles(staff, staff.Keys, value, i);
      }
    }
  }

  lemma ReconciledExactly(staff: map<User, Role>, value: seq<Entry>, last: map<User, Role>)
    requires Reconciled(Added(staff, staff.Keys, value), Users(value), last)
    ensures RolesUpTo(staff, value, last, false) && OnlyRequested(staff, value, last)
    ensures exists u :: u in last && last[u] == Owner
  {
    var added := Added(staff, staff.Keys, value);
    AddedKeys(staff, staff.Keys, value);
    ReconciledHasOwner(added, Users(value), last);
    var o :| o in WithRole(last, Owner);
    assert last[o] == Owner;
    RolesOfAdded(staff, value, last, false);
    var kept := map u | u in added && u in Users(value) :: added[u];
    forall u | u in last && (forall e | e in value :: e.user != u)
      ensures u in staff && staff[u] == Owner && forall v | v in last && last[v] == Owner :: v == u
    {
      assert u !in Users(value);
      assert forall v | v in kept && kept[v] == Owner :: v in WithRole(kept, Owner);
    }
  }

  /** The staff after reconciliation, starting from the staff with the new members added: the requested users,
      and one more former owner exactly when none of those is an owner. */
  ghost predicate Reconciled(added: map<User, Role>, requested: set<User>, last: map<User, Role>) {
    var kept := map u | u in added && u in requested :: added[u];
    if WithRole(kept, Owner) != {} then last == kept
    else exists u :: u in added && u !in requested && added[u] == Owner && last == kept[u := Owner]
  }

  // ---------- Runs ----------

  datatype Event =
    | Request(requester: User, target: User, action: Action, response: Response)
    | Reconcile(value: seq<Entry>)

  ghost predicate Happens(dir: Directory, s: Office, e: Event, t: Office) {
    match e
    case Request(requester, target, action, response) => Posts(dir, s, requester, false, target, action, t, response)
    case Reconcile(value) =>
      var added := Added(s.staff, s.staff.Keys, value);
      WithRole(added, Owner) != {} ==> Reconciled(added, Users(value), t.staff)
  }

  lemma ReconciledHasOwner(added: map<User, Role>, requested: set<User>, last: map<User, Role>)
    requires Reconciled(added, requested, last)
    ensures WithRole(last, Owner) != {}
  {
    var kept := map u | u in added && u in requested :: added[u];
    if WithRole(kept, Owner) == {} {
      var u :| u in added && u !in requested && added[u] == Owner && last == kept[u := Owner];
      assert u in WithRole(last, Owner);
    }
  }

  lemma AddedKeepsOwners(staff: map<User, Role>, value: seq<Entry>)
    ensures WithRole(staff, Owner) <= WithRole(Added(staff, staff.Keys, value), Owner)
  {
  }

  /** No run of requests by owners and of reconciliations loses the last owner. */
  lemma {:induction false} RunsKeepOwner(dir: Directory, offices: seq<Office>, events: seq<Event>)
    requires |offices| == |events| + 1 && Owners(offices[0]) != {}
    requires forall k | 0 <= k < |events| :: Happens(dir, offices[k], events[k], offices[k + 1])
    ensures Owners(offices[|events|]) != {}
    decreases |events|
  {
    if events != [] {
      var s, t := offices[0], offices[1];
      assert Happens(dir, s, events[0], t);
      match events[0] {
        case Request(requester, target, action, response) =>
          if response != Forbidden {
            OwnerRequestKeepsOwner(dir, s, requester, target, action, t, response);
          }
        case Reconcile(value) =>
          AddedKeepsOwners(s.staff, value);
          ReconciledHasOwner(Added(s.staff, s.staff.Keys, value), Users(value), t.staff);
      }
      RunsKeepOwner(dir, offices[1..], events[1..]);
    }
  }
}
