/** The issuer record with its staff table: ensure_owner, deletion of staff, the staff endpoint and the
    reconciliation setter.
 */
module IssuerStaffing {
  import opened Basics
  import opened StaffRules

  /** Between two records of the removal loop. */
  ghost predicate Removing(added: map<User, Role>, requested: set<User>, left: set<User>, now: map<User, Role>) {
    && left <= now.Keys <= added.Keys
    && (forall u | u in now :: now[u] == added[u])
    && (forall u | u in added && u in requested :: u in now)
    && (forall u | u in now && u !in left && u !in requested :: WithRole(now, Owner) == {u})
    && WithRole(now, Owner) != {}
  }

  lemma RemovingDone(added: map<User, Role>, requested: set<User>, now: map<User, Role>)
    requires Removing(added, requested, {}, now)
    ensures Reconciled(added, requested, now)
  {
    var kept := map u | u in added && u in requested :: added[u];
    if w :| w in WithRole(kept, Owner) {
      assert w in WithRole(now, Owner);
      assert forall u | u in now :: u in requested;
      assert now == kept;
    } else {
      var u :| u in WithRole(now, Owner);
      assert u in requested ==> u in WithRole(kept, Owner);
      assert forall v | v in now && v !in requested :: WithRole(now, Owner) == {v} && v == u;
      assert now == kept[u := Owner];
    }
  }

  lemma RemovingKeeps(added: map<User, Role>, requested: set<User>, left: set<User>, now: map<User, Role>, u: User)
    requires Removing(added, requested, left, now) && u in left
    requires u in requested || (added[u] == Owner && |WithRole(now, Owner)| <= 1)
    ensures Removing(added, requested, left - {u}, now)
  {
    if u !in requested {
      assert u in WithRole(now, Owner);
      assert |WithRole(now, Owner) - {u}| == |WithRole(now, Owner)| - 1;
    }
  }

  lemma RemovingDeletes(added: map<User, Role>, requested: set<User>, left: set<User>, now: map<User, Role>, u: User)
    requires Removing(added, requested, left, now) && u in left && u !in requested
    requires added[u] != Owner || |WithRole(now, Owner)| > 1
    ensures WithRole(now, Owner) - {u} != {}
    ensures Removing(added, requested, left - {u}, now - {u})
  {
    assert WithRole(now - {u}, Owner) == WithRole(now, Owner) - {u};
    if u in WithRole(now, Owner) {
      assert |WithRole(now, Owner) - {u}| == |WithRole(now, Owner)| - 1;
    }
    assert forall v | v in now && v !in left && v !in requested :: WithRole(now, Owner) == {v};
  }

  lemma NobodyLeft(s: Office)
    requires Owners(s) == {} && WithRole(s.staff, Editor) == {} && WithRole(s.staff, Staff) == {}
    ensures s.staff == map[]
  {
    assert forall u | u in s.staff :: s.staff[u] == Owner || s.staff[u] == Editor || s.staff[u] == Staff;
    assert forall u | u in s.staff :: u in Owners(s) || u in WithRole(s.staff, Editor) || u in WithRole(s.staff, Staff);
  }

  /** Between two records of the removal loop when nobody was an owner to begin with; someone may be promoted. */
  ghost predicate RemovingUnled(
    added: map<User, Role>, requested: set<User>, left: set<User>, now: map<User, Role>)
  {
    && requested <= now.Keys && left <= added.Keys
    && (requested != {} ==> now.Keys <= requested + left)
    && (forall u | u in now && u in added :: now[u] == added[u] || now[u] == Owner)
  }

  lemma UnledDeletes(
    added: map<User, Role>, requested: set<User>, left: set<User>, now: map<User, Role>, u: User,
    next: map<User, Role>)
    requires RemovingUnled(added, requested, left, now) && u in left && u !in requested
    requires requested <= next.Keys && (!(now.Keys <= {u}) ==> next.Keys == now.Keys - {u})
    requires forall v | v in now && v in next && v != u :: next[v] == now[v] || next[v] == Owner
    requires now.Keys <= {u} ==> forall v | v in next :: next[v] == Owner
    ensures RemovingUnled(added, requested, left - {u}, next)
  {
  }

  ghost predicate RemovalState(
    added: map<User, Role>, requested: set<User>, left: set<User>, now: map<User, Role>)
  {
    if WithRole(added, Owner) != {} then Removing(added, requested, left, now)
    else RemovingUnled(added, requested, left, now)
  }

  /** One record is deleted. */
  lemma RemovalDeletes(
    dir: Directory, added: map<User, Role>, requested: set<User>, left: set<User>, s: Office, u: User, t: Office)
    requires RemovalState(added, requested, left, s.staff) && u in left && u !in requested
    requires added[u] != Owner || |WithRole(s.staff, Owner)| > 1
    requires Deletes(dir, s, u, t)
    ensures RemovalState(added, requested, left - {u}, t.staff)
    ensures s.staff.Keys - {u} <= t.staff.Keys
    ensures s.createdBy.Some? ==> t.createdBy == s.createdBy
    ensures WithRole(added, Owner) != {} ==> t.verified == s.verified
  {
    DeleteKeepsMembers(dir, s, u, t);
    if WithRole(added, Owner) != {} {
      RemovingDeletes(added, requested, left, s.staff, u);
      DeleteWithOtherOwner(dir, s, u, t);
    } else {
      DeleteExactly(dir, s, u, t);
      DeletedLast(dir, s, u, t);
      UnledDeletes(added, requested, left, s.staff, u, t.staff);
    }
  }

  lemma DeletedLast(dir: Directory, s: Office, u: User, t: Office)
    requires Deletes(dir, s, u, t)
    ensures s.staff.Keys <= {u} ==> forall v | v in t.staff :: t.staff[v] == Owner
  {
  }

  /** One record stays: a requested one, or that of the only owner. */
  lemma RemovalKeeps(added: map<User, Role>, requested: set<User>, left: set<User>, now: map<User, Role>, u: User)
    requires RemovalState(added, requested, left, now) && u in left
    requires u in requested || (added[u] == Owner && |WithRole(now, Owner)| <= 1)
    ensures RemovalState(added, requested, left - {u}, now)
  {
    if WithRole(added, Owner) != {} {
      RemovingKeeps(added, requested, left, now, u);
    } else {
      assert u in added && u !in WithRole(added, Owner);
    }
  }

  /** The staff after reconciliation, in terms of the staff before and the request. */
  ghost predicate Outcome(staff: map<User, Role>, value: seq<Entry>, last: map<User, Role>) {
    && RolesUpTo(staff, value, last, !HasLeader(staff, value))
    && (HasLeader(staff, value) ==>
          OnlyRequested(staff, value, last) && exists u :: u in last && last[u] == Owner)
    && (value != [] && !HasLeader(staff, value) ==> forall u :: u in last <==> exists e :: e in value && e.user == u)
  }

  lemma LedOutcome(staff: map<User, Role>, value: seq<Entry>, last: map<User, Role>)
    requires var added := Added(staff, staff.Keys, value);
             WithRole(added, Owner) != {} && Reconciled(added, Users(value), last)
    ensures Outcome(staff, value, last)
  {
    AddedLeader(staff, value);
    ReconciledExactly(staff, value, last);
  }

  lemma UnledOutcome(staff: map<User, Role>, value: seq<Entry>, last: map<User, Role>)
    requires var added := Added(staff, staff.Keys, value);
             WithRole(added, Owner) == {} && RemovingUnled(added, Users(value), {}, last)
    ensures Outcome(staff, value, last)
  {
    if HasLeader(staff, value) {
      LeaderIsAdded(staff, value);
    } else {
      RolesOfAdded(staff, value, last, true);
      if value != [] {
        assert value[0] in value && value[0].user in Users(value);
        assert forall u :: u in last <==> u in Users(value);
      }
    }
  }

  class Issuer {
    const dir: Directory
    var staff: map<User, Role>
    var createdBy: Option<User>
    var verified: bool
    var email: Option<string>

    constructor (dir: Directory, office: Office)
      ensures this.dir == dir && State() == office
    {
      this.dir := dir;
      staff, createdBy, verified, email := office.staff, office.createdBy, office.verified, office.email;
    }

    function State(): Office
      reads this
    {
      Office(staff, createdBy, verified, email)
    }

    /** Also what saving the issuer does to these tables. */
    method EnsureOwner()
      modifies this
      ensures EnsuresOwner(old(State()), State()) && Promotes(old(State()), State())
      ensures Owners(State()) == {} <==> Leaderless(old(State()))
      ensures Owners(old(State())) <= Owners(State()) && (Owners(old(State())) != {} ==> staff == old(staff))
      ensures Owners(old(State())) == {} && Owners(State()) != {} ==> |Owners(State())| == 1
      ensures forall u | u in old(staff) :: u in staff && (staff[u] == old(staff)[u] || staff[u] == Owner)
      ensures old(staff) != map[] ==> staff.Keys == old(staff).Keys
      ensures email == old(email)
    {
      ghost var s := State();
      var owners, editors := WithRole(staff, Owner), WithRole(staff, Editor);
      if owners != {} && createdBy.Some? {
      } else if createdBy.Some? && createdBy.value in staff {
        staff := staff[createdBy.value := Owner];
      } else if createdBy.None? {
        if owners != {} {
          var u :| u in owners;
          createdBy := Some(u);
          assert u in Owners(s) && State() == s.(createdBy := Some(u));
        } else if staff == map[] {
          verified := false;
        } else {
          var u: User;
          if editors != {} {
            u :| u in editors;
          } else {
            assert staff.Keys != {};
            u :| u in staff.Keys;
          }
          createdBy := Some(u);
          staff := staff[u := Owner];
          assert MayLead(s, u) && State() == s.(createdBy := Some(u), staff := s.staff[u := Owner]);
        }
      } else if editors != {} || WithRole(staff, Staff) != {} {
        // the chosen user record is given a role and saved; staff rows are not
        assert staff != map[];
      } else {
        NobodyLeft(s);
        staff := staff[createdBy.value := Owner];
      }
      EnsureOwnerExactly(s, State());
      EnsureOwnerPromotes(s, State());
    }

    method NewContactEmail()
      modifies this
      ensures NewContact(dir, old(State()), State())
      ensures Owners(State()) == {} <==> Leaderless(old(State()))
      ensures if Owners(State()) == {} then email == old(email)
              else exists o :: o in Owners(State()) && email == Some(dir.primaryEmail(o))
      ensures Owners(old(State())) <= Owners(State()) && (Owners(old(State())) != {} ==> staff == old(staff))
    {
      ghost var s := State();
      EnsureOwner();
      ghost var m := State();
      if WithRole(staff, Owner) != {} {
        var owner :| owner in WithRole(staff, Owner);
        email := Some(dir.primaryEmail(owner));
        EnsureOwner();
        assert owner in Owners(m) && EnsuresOwner(m.(email := Some(dir.primaryEmail(owner))), State());
      }
      NewContactExactly(dir, s, State());
    }

    /** IssuerStaff.delete */
    method DeleteStaff(u: User)
      modifies this
      ensures Deletes(dir, old(State()), u, State())
      ensures var contact := old(email).Some? && old(email).value in dir.verifiedEmails(u);
              && (staff.Keys == if contact && old(staff).Keys <= {u} then Creator(old(State()))
                                else old(staff).Keys - {u})
              && (Owners(State()) == {} <==>
                    && Owners(old(State())) <= {u}
                    && (contact ==> Leaderless(old(State()).(staff := old(staff) - {u}))))
              && (if contact && Owners(State()) != {} then
                    exists o :: o in Owners(State()) && email == Some(dir.primaryEmail(o))
                  else email == old(email))
              && (!contact ==> State() == old(State()).(staff := old(staff) - {u}))
      ensures Owners(old(State())) - {u} <= Owners(State())
      ensures forall v | v in old(staff) && v in staff && v != u ::
                staff[v] == old(staff)[v] || staff[v] == Owner
    {
      ghost var s := State();
      var newContact := IsContact(dir, State(), u);
      staff := staff - {u};
      if newContact {
        NewContactEmail();
      }
      DeleteExactly(dir, s, u, State());
    }

    /** IssuerStaffList.post */
    method Post(requester: User, privileged: bool, target: User, action: Action) returns (response: Response)
      modifies this
      ensures Posts(dir, old(State()), requester, privileged, target, action, State(), response)
      ensures response == Forbidden <==>
                !privileged && !(requester in old(staff) && old(staff)[requester] == Owner)
      ensures response == BadRequest <==>
                && response != Forbidden
                && (target == requester || (action.Add? && target in old(staff))
                    || (action.Modify? && target !in old(staff)))
      ensures response != Ok ==> State() == old(State())
      ensures response == Ok && !action.RemoveUser? ==>
                State() == old(State()).(staff := old(staff)[target := action.role])
      ensures response == Ok && action.RemoveUser?
              && (exists o :: o in old(staff) && old(staff)[o] == Owner && o != target) ==>
                staff == old(staff) - {target}
      ensures !privileged && response != Forbidden ==>
                && requester in staff && staff[requester] == Owner
                && forall u | u != target ::
                     (u in staff <==> u in old(staff)) && (u in staff ==> staff[u] == old(staff)[u])
      ensures Owners(old(State())) != {} ==>
                (Owners(State()) == {} <==>
                   && response == Ok && Owners(old(State())) == {target}
                   && ((action.Modify? && action.role != Owner)
                       || (action.RemoveUser? && Leaderless(old(State()).(staff := old(staff) - {target})))))
    {
      ghost var s := State();
      response := Ok;
      if !privileged && !(requester in staff && staff[requester] == Owner) {
        response := Forbidden;
      } else if target == requester {
        response := BadRequest;
      } else {
        match action {
          case Add(role) =>
            if target in staff {
              response := BadRequest;
            } else {
              staff := staff[target := role];
            }
          case Modify(role) =>
            if target !in staff {
              response := BadRequest;
            } else {
              staff := staff[target := role];
            }
          case RemoveUser =>
            if target in staff {
              DeleteStaff(target);
            }
            EnsureOwner();
        }
      }
      if !privileged && response != Forbidden {
        OwnerRequestKeepsOwner(dir, s, requester, target, action, State(), response);
      }
      if response == Ok && action.RemoveUser? {
        RemovalWithOtherOwner(dir, s, requester, privileged, target, State());
      }
      if Owners(s) != {} {
        RequestLosesOwnerExactly(dir, s, requester, privileged, target, action, State(), response);
      }
    }

    /** The staff_items setter. The removal loop keeps an owner at every step. */
    method SetStaffItems(value: seq<Entry>)
      modifies this
      ensures var added := Added(old(staff), old(staff).Keys, value);
              WithRole(added, Owner) != {} ==> Reconciled(added, Users(value), staff) && verified == old(verified)
      ensures Outcome(old(staff), value, staff)
      ensures Users(value) <= staff.Keys
      ensures old(createdBy).Some? ==> createdBy == old(createdBy)
      ensures Happens(dir, old(State()), Reconcile(value), State())
    {
      ghost var start := staff;
      var existing, requested := staff.Keys, Users(value);
      for i := 0 to |value|
        invariant staff == Added(start, existing, value[..i])
        invariant createdBy == old(createdBy) && verified == old(verified)
      {
        assert value[..i + 1][..i] == value[..i];
        if value[i].user !in existing {
          staff := staff[value[i].user := value[i].role];
        }
      }
      assert value[..|value|] == value;
      AddedKeys(start, existing, value);
      RemoveOthers(staff, requested);
      if WithRole(Added(start, existing, value), Owner) != {} {
        LedOutcome(start, value, staff);
      } else {
        UnledOutcome(start, value, staff);
      }
    }

    /** The loop over the staff records that removes the members who were not requested. */
    method RemoveOthers(added: map<User, Role>, requested: set<User>)
      requires staff == added && requested <= added.Keys
      modifies this
      ensures requested <= staff.Keys
      ensures if WithRole(added, Owner) != {} then Reconciled(added, requested, staff) && verified == old(verified)
              else RemovingUnled(added, requested, {}, staff)
      ensures old(createdBy).Some? ==> createdBy == old(createdBy)
    {
      var left := staff.Keys;
      while left != {}
        invariant RemovalState(added, requested, left, staff) && requested <= staff.Keys
        invariant old(createdBy).Some? ==> createdBy == old(createdBy)
        invariant WithRole(added, Owner) != {} ==> verified == old(verified)
        decreases left
      {
        var u :| u in left;
        if u !in requested && (added[u] != Owner || |WithRole(staff, Owner)| > 1) {
          ghost var s := State();
          DeleteStaff(u);
          RemovalDeletes(dir, added, requested, left, s, u, State());
        } else {
          RemovalKeeps(added, requested, left, staff, u);
        }
        left := left - {u};
      }
      if WithRole(added, Owner) != {} {
        RemovingDone(added, requested, staff);
      }
    }
  }
}
