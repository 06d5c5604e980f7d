/** Invitations of issuers into networks, and the memberships they lead to, as steps between tables. */
module NetworkProtocol {
  import opened Basics

  datatype Status = Pending | Approved | Rejected | Revoked

  datatype Invite = Invite(network: string, issuer: string, status: Status, revoked: bool)

  /** Networks, invites by identifier, and memberships as (network, issuer). Identifiers from `nextId` on are
      still unused. */
  datatype Desk = Desk(
    networks: set<string>,
    invites: map<nat, Invite>,
    nextId: nat,
    members: set<(string, string)>)

  /** Issuers that are not networks, and the membership quota of the networks that have one. */
  datatype Site = Site(issuers: set<string>, quota: map<string, nat>)

  datatype Response = Created | Accepted | AlreadyRevoked | BadRequest | Forbidden | NotFound | QuotaExceeded

  datatype Step =
    | CreateNetwork(network: string, parent: string, parentAllowed: bool)
    | PostInvites(network: string, slugs: seq<string>, isEditor: bool)
    | Confirm(id: nat)
    | Revoke(id: nat)
    | RemoveIssuer(network: string, issuer: string, isEditor: bool)

  function Elements(slugs: seq<string>): set<string> {
    set slug | slug in slugs
  }

  function PendingOf(desk: Desk, n: string): set<nat> {
    set id | id in desk.invites && desk.invites[id].network == n && desk.invites[id].status == Pending
  }

  function MembersOf(desk: Desk, n: string): set<(string, string)> {
    set m | m in desk.members && m.0 == n
  }

  /** get_quota_usage for NETWORK_MEMBERSHIPS */
  function Usage(desk: Desk, n: string): nat {
    |MembersOf(desk, n)| + |PendingOf(desk, n)|
  }

  predicate ExceedsQuota(site: Site, desk: Desk, n: string, more: nat) {
    n in site.quota && (if site.quota[n] <= Usage(desk, n) then 0 else site.quota[n] - Usage(desk, n)) < more
  }

  predicate IsPendingFor(v: Invite, n: string, targets: set<string>) {
    v.network == n && v.issuer in targets && v.status == Pending
  }

  /** One fresh pending invite for each target in place of its pending ones; nothing else changes. */
  ghost predicate Invited(s: Desk, t: Desk, n: string, targets: set<string>) {
    && t.networks == s.networks && t.members == s.members && s.nextId <= t.nextId
    && (forall id | id in s.invites && id < s.nextId && !IsPendingFor(s.invites[id], n, targets) ::
          id in t.invites && t.invites[id] == s.invites[id])
    && (forall id | id in t.invites && id < s.nextId ::
          id in s.invites && t.invites[id] == s.invites[id] && !IsPendingFor(s.invites[id], n, targets))
    && (forall id | id in t.invites && id >= s.nextId ::
          id < t.nextId && t.invites[id].issuer in targets
          && t.invites[id] == Invite(n, t.invites[id].issuer, Pending, false))
    && (forall i | i in targets :: exists id :: id in t.invites && id >= s.nextId && t.invites[id].issuer == i)
    && (forall a, b | a in t.invites && b in t.invites && s.nextId <= a < b :: t.invites[a].issuer != t.invites[b].issuer)
  }

  function Founded(s: Desk, n: string, parent: string): Desk {
    s.(networks := s.networks + {n}, members := s.members + if parent != "" then {(n, parent)} else {})
  }

  function Confirmed(s: Desk, id: nat): Desk
    requires id in s.invites
  {
    var v := s.invites[id];
    s.(invites := s.invites[id := v.(status := Approved)], members := s.members + {(v.network, v.issuer)})
  }

  function RevokedInvite(s: Desk, id: nat): Desk
    requires id in s.invites
  {
    s.(invites := s.invites[id := s.invites[id].(status := Revoked, revoked := true)])
  }

  function AfterRemoval(v: Invite, n: string, i: string): Invite {
    if v.network == n && v.issuer == i && v.status == Approved && !v.revoked
    then v.(status := Revoked, revoked := true) else v
  }

  /** Approved invites of the pair become revoked and the membership goes. */
  function Removed(s: Desk, n: string, i: string): Desk {
    s.(members := s.members - {(n, i)},
       invites := map id | id in s.invites :: AfterRemoval(s.invites[id], n, i))
  }

  /** What each request answers and does. A request that is refused changes nothing. */
  ghost predicate Next(site: Site, s: Desk, step: Step, t: Desk, r: Response) {
    match step
    case CreateNetwork(n, parent, allowed) =>
      n !in s.networks  // the identifier is generated
      && if parent != "" && (parent !in site.issuers || !allowed) then r == BadRequest && t == s
         else r == Created && t == Founded(s, n, parent)
    case PostInvites(n, slugs, isEditor) =>
      if n !in s.networks then r == NotFound && t == s
      else if !isEditor then r == Forbidden && t == s
      else if slugs == [] || "" in slugs then r == BadRequest && t == s
      else if ExceedsQuota(site, s, n, |slugs|) then r == QuotaExceeded && t == s
      else if !(Elements(slugs) <= site.issuers) then r == NotFound && t == s
      else if exists i :: i in slugs && (n, i) in s.members then r == BadRequest && t == s
      else r == Created && Invited(s, t, n, Elements(slugs))
    case Confirm(id) =>
      if id !in s.invites then r == NotFound && t == s
      else if s.invites[id].status != Pending then r == BadRequest && t == s
      else r == Accepted && t == Confirmed(s, id)
    case Revoke(id) =>
      if id !in s.invites then r == NotFound && t == s
      else if s.invites[id].status == Revoked then r == AlreadyRevoked && t == s
      else if s.invites[id].status != Pending then r == BadRequest && t == s
      else r == Accepted && t == RevokedInvite(s, id)
    case RemoveIssuer(n, i, isEditor) =>
      if n !in s.networks then r == NotFound && t == s
      else if !isEditor then r == Forbidden && t == s
      else if (n, i) !in s.members then r == NotFound && t == s
      else r == Accepted && t == Removed(s, n, i)
  }

  // ---------- What every step keeps ----------

  predicate Live(v: Invite) {
    v.status == Pending || v.status == Approved
  }

  predicate SamePair(v: Invite, w: Invite) {
    v.network == w.network && v.issuer == w.issuer
  }

  ghost predicate HasApproved(desk: Desk, m: (string, string)) {
    exists id :: id in desk.invites && (desk.invites[id].network, desk.invites[id].issuer) == m
                 && desk.invites[id].status == Approved
  }

  ghost predicate WellFormed(desk: Desk) {
    && (forall id | id in desk.invites :: id < desk.nextId && desk.invites[id].network in desk.networks)
    && (forall m | m in desk.members :: m.0 in desk.networks)
    && (forall id | id in desk.invites :: desk.invites[id].revoked <==> desk.invites[id].status == Revoked)
  }

  ghost predicate OneLive(desk: Desk) {
    forall a, b | a in desk.invites && b in desk.invites && a != b && Live(desk.invites[a]) && Live(desk.invites[b]) ::
      !SamePair(desk.invites[a], desk.invites[b])
  }

  ghost predicate MembersApproved(desk: Desk, founders: set<(string, string)>) {
    && (forall id | id in desk.invites && desk.invites[id].status == Pending ::
          (desk.invites[id].network, desk.invites[id].issuer) !in desk.members)
    && (forall id | id in desk.invites && desk.invites[id].status == Approved ::
          (desk.invites[id].network, desk.invites[id].issuer) in desk.members - founders)
    && (forall m | m in desk.members - founders :: HasApproved(desk, m))
  }

  /** Flags follow the status, a pair has at most one pending or approved invite, and apart from `founders`,
      the memberships that came with their network, an issuer is a member exactly when its invite is approved. */
  ghost predicate Consistent(desk: Desk, founders: set<(string, string)>) {
    WellFormed(desk) && OneLive(desk) && MembersApproved(desk, founders)
  }

  function FoundersAfter(founders: set<(string, string)>, step: Step, r: Response): set<(string, string)> {
    match step
    case CreateNetwork(n, parent, _) => if r == Created && parent != "" then founders + {(n, parent)} else founders
    case RemoveIssuer(n, i, _) => if r == Accepted then founders - {(n, i)} else founders
    case _ => founders
  }

  /** Approved invites that a step leaves alone still account for their memberships. */
  lemma StillApproved(s: Desk, t: Desk, m: (string, string))
    requires HasApproved(s, m)
    requires forall id | id in s.invites && (s.invites[id].network, s.invites[id].issuer) == m
                         && s.invites[id].status == Approved ::
               id in t.invites && t.invites[id] == s.invites[id]
    ensures HasApproved(t, m)
  {
  }

  lemma FoundedKeepsConsistent(s: Desk, founders: set<(string, string)>, n: string, parent: string)
    requires Consistent(s, founders) && n !in s.networks
    ensures Consistent(Founded(s, n, parent), founders + if parent != "" then {(n, parent)} else {})
  {
    var t := Founded(s, n, parent);
    var founders' := founders + if parent != "" then {(n, parent)} else {};
    forall m | m in t.members - founders'
      ensures HasApproved(t, m)
    {
      assert HasApproved(s, m);
    }
  }

  lemma InvitedKeepsConsistent(s: Desk, founders: set<(string, string)>, t: Desk, n: string, targets: set<string>)
    requires Consistent(s, founders) && n in s.networks && Invited(s, t, n, targets)
    requires forall i | i in targets :: (n, i) !in s.members
    ensures Consistent(t, founders)
  {
  }

  lemma ConfirmedKeepsConsistent(s: Desk, founders: set<(string, string)>, id: nat)
    requires Consistent(s, founders) && founders <= s.members && id in s.invites && s.invites[id].status == Pending
    ensures Consistent(Confirmed(s, id), founders)
  {
    var t := Confirmed(s, id);
    forall m | m in t.members - founders
      ensures HasApproved(t, m)
    {
      if m == (s.invites[id].network, s.invites[id].issuer) {
        assert t.invites[id].status == Approved;
      } else {
        assert HasApproved(s, m);
        StillApproved(s, t, m);
      }
    }
  }

  lemma RevokedKeepsConsistent(s: Desk, founders: set<(string, string)>, id: nat)
    requires Consistent(s, founders) && id in s.invites && s.invites[id].status == Pending
    ensures Consistent(RevokedInvite(s, id), founders)
  {
    var t := RevokedInvite(s, id);
    forall m | m in t.members - founders
      ensures HasApproved(t, m)
    {
      assert HasApproved(s, m);
      StillApproved(s, t, m);
    }
  }

  lemma RemovedKeepsConsistent(s: Desk, founders: set<(string, string)>, n: string, i: string)
    requires Consistent(s, founders)
    ensures Consistent(Removed(s, n, i), founders - {(n, i)})
  {
    RemovedKeepsLive(s, n, i);
    RemovedKeepsMembers(s, founders, n, i);
  }

  lemma RemovedKeepsLive(s: Desk, n: string, i: string)
    requires WellFormed(s) && OneLive(s)
    ensures WellFormed(Removed(s, n, i)) && OneLive(Removed(s, n, i))
  {
  }

  lemma RemovedKeepsMembers(s: Desk, founders: set<(string, string)>, n: string, i: string)
    requires WellFormed(s) && MembersApproved(s, founders)
    ensures MembersApproved(Removed(s, n, i), founders - {(n, i)})
  {
    var t := Removed(s, n, i);
    forall m | m in t.members - (founders - {(n, i)})
      ensures HasApproved(t, m)
    {
      assert m in s.members - founders && HasApproved(s, m);
      StillApproved(s, t, m);
    }
  }

  lemma StepKeepsConsistent(site: Site, s: Desk, founders: set<(string, string)>, step: Step, t: Desk, r: Response)
    requires Consistent(s, founders) && founders <= s.members && Next(site, s, step, t, r)
    ensures Consistent(t, FoundersAfter(founders, step, r))
    ensures FoundersAfter(founders, step, r) <= t.members
  {
    if r == Created || r == Accepted {
      match step
      case CreateNetwork(n, parent, _) => FoundedKeepsConsistent(s, founders, n, parent);
      case PostInvites(n, slugs, _) => InvitedKeepsConsistent(s, founders, t, n, Elements(slugs));
      case Confirm(id) => ConfirmedKeepsConsistent(s, founders, id);
      case Revoke(id) => RevokedKeepsConsistent(s, founders, id);
      case RemoveIssuer(n, i, _) => RemovedKeepsConsistent(s, founders, n, i);
    }
  }

  // ---------- Quota ----------

  lemma {:induction false} FreshAtMostTargets(t: Desk, added: set<nat>, targets: set<string>)
    requires forall id | id in added :: id in t.invites && t.invites[id].issuer in targets
    requires forall a, b | a in added && b in added && a != b :: t.invites[a].issuer != t.invites[b].issuer
    ensures |added| <= |targets|
    decreases added
  {
    if added != {} {
      var id :| id in added;
      FreshAtMostTargets(t, added - {id}, targets - {t.invites[id].issuer});
    }
  }

  lemma {:induction false} ElementsAtMostLength(slugs: seq<string>)
    ensures |Elements(slugs)| <= |slugs|
  {
    if slugs != [] {
      ElementsAtMostLength(slugs[1..]);
      assert Elements(slugs) == {slugs[0]} + Elements(slugs[1..]);
    }
  }

  function Fresh(s: Desk, t: Desk): set<nat> {
    set id | id in t.invites && id >= s.nextId
  }

  lemma InvitedPending(s: Desk, t: Desk, m: string, targets: set<string>, n: string)
    requires Invited(s, t, m, targets)
    ensures PendingOf(t, n) <= PendingOf(s, n) + if m == n then Fresh(s, t) else {}
  {
  }

  lemma InvitedUsage(s: Desk, t: Desk, m: string, targets: set<string>, n: string)
    requires Invited(s, t, m, targets)
    ensures Usage(t, n) <= Usage(s, n) + if m == n then |targets| else 0
  {
    assert MembersOf(t, n) == MembersOf(s, n);
    var prior, added := PendingOf(s, n), Fresh(s, t);
    InvitedPending(s, t, m, targets, n);
    if m == n {
      FreshAtMostTargets(t, added, targets);
      SubsetCardinality(PendingOf(t, n), prior + added);
    } else {
      SubsetCardinality(PendingOf(t, n), prior);
    }
  }

  lemma ConfirmedPending(s: Desk, id: nat, n: string)
    requires id in s.invites && s.invites[id].status == Pending
    ensures PendingOf(Confirmed(s, id), n) == PendingOf(s, n) - {id}
    ensures id in PendingOf(s, n) <==> s.invites[id].network == n
  {
  }

  lemma ConfirmedMembers(s: Desk, id: nat, n: string)
    requires id in s.invites
    ensures var v := s.invites[id];
            MembersOf(Confirmed(s, id), n) == MembersOf(s, n) + if v.network == n then {(n, v.issuer)} else {}
  {
  }

  lemma ConfirmedUsage(s: Desk, id: nat, n: string)
    requires id in s.invites && s.invites[id].status == Pending
    ensures Usage(Confirmed(s, id), n) <= Usage(s, n)
  {
    ConfirmedPending(s, id, n);
    ConfirmedMembers(s, id, n);
  }

  /** Confirming moves one from the pending invites to the members. */
  lemma ConfirmedUsageSame(s: Desk, id: nat, n: string)
    requires id in s.invites && s.invites[id].status == Pending
    requires (s.invites[id].network, s.invites[id].issuer) !in s.members
    ensures Usage(Confirmed(s, id), n) == Usage(s, n)
  {
    ConfirmedPending(s, id, n);
    ConfirmedMembers(s, id, n);
    if s.invites[id].network != n {
      assert PendingOf(s, n) - {id} == PendingOf(s, n);
      assert MembersOf(s, n) + {} == MembersOf(s, n);
    }
  }

  lemma SmallerUsage(s: Desk, t: Desk, n: string)
    requires PendingOf(t, n) <= PendingOf(s, n) && MembersOf(t, n) <= MembersOf(s, n)
    ensures Usage(t, n) <= Usage(s, n)
  {
    SubsetCardinality(PendingOf(t, n), PendingOf(s, n));
    SubsetCardinality(MembersOf(t, n), MembersOf(s, n));
  }

  lemma FoundedUsage(s: Desk, founders: set<(string, string)>, m: string, parent: string, n: string)
    requires Consistent(s, founders) && m !in s.networks
    ensures Usage(Founded(s, m, parent), n) == if n != m then Usage(s, n) else if parent != "" then 1 else 0
  {
    var t := Founded(s, m, parent);
    assert PendingOf(t, n) == PendingOf(s, n);
    if n != m {
      assert MembersOf(t, n) == MembersOf(s, n);
    } else {
      assert PendingOf(t, n) == {} && MembersOf(t, n) == if parent != "" then {(m, parent)} else {};
    }
  }

  lemma RevokedUsage(s: Desk, id: nat, n: string)
    requires id in s.invites && s.invites[id].status == Pending
    ensures Usage(RevokedInvite(s, id), n) == Usage(s, n) - if s.invites[id].network == n then 1 else 0
  {
    var t := RevokedInvite(s, id);
    assert MembersOf(t, n) == MembersOf(s, n);
    if s.invites[id].network == n {
      assert PendingOf(t, n) == PendingOf(s, n) - {id} && id in PendingOf(s, n);
    } else {
      assert PendingOf(t, n) == PendingOf(s, n);
    }
  }

  lemma RemovedUsage(s: Desk, m: string, i: string, n: string)
    requires (m, i) in s.members
    ensures Usage(Removed(s, m, i), n) == Usage(s, n) - if m == n then 1 else 0
  {
    var t := Removed(s, m, i);
    assert PendingOf(t, n) == PendingOf(s, n);
    if m == n {
      assert MembersOf(t, n) == MembersOf(s, n) - {(m, i)} && (m, i) in MembersOf(s, n);
    } else {
      assert MembersOf(t, n) == MembersOf(s, n);
    }
  }

  ghost predicate HasPending(desk: Desk, n: string, i: string) {
    exists id :: id in desk.invites && desk.invites[id] == Invite(n, i, Pending, false)
  }

  lemma InvitedPendingFor(s: Desk, t: Desk, n: string, targets: set<string>)
    requires Invited(s, t, n, targets)
    ensures forall i | i in targets :: HasPending(t, n, i)
  {
    forall i | i in targets
      ensures HasPending(t, n, i)
    {
      var id :| id in t.invites && id >= s.nextId && t.invites[id].issuer == i;
      assert t.invites[id] == Invite(n, i, Pending, false);
    }
  }

  /** No pending or approved invite of this pair. */
  ghost predicate NoLive(desk: Desk, n: string, i: string) {
    forall id | id in desk.invites && desk.invites[id].network == n && desk.invites[id].issuer == i ::
      desk.invites[id].status != Pending && desk.invites[id].status != Approved
  }

  lemma RemovedNoLive(s: Desk, founders: set<(string, string)>, n: string, i: string)
    requires Consistent(s, founders) && (n, i) in s.members
    ensures NoLive(Removed(s, n, i), n, i)
  {
  }

  /** No network that was within its quota is beyond it now. */
  ghost predicate QuotaKept(site: Site, s: Desk, t: Desk) {
    forall n | n in s.networks && n in site.quota && Usage(s, n) <= site.quota[n] :: Usage(t, n) <= site.quota[n]
  }

  /** Partners plus pending invites of a network that exists never pass its quota once within it. */
  lemma StepKeepsQuota(site: Site, s: Desk, step: Step, t: Desk, r: Response, n: string)
    requires Next(site, s, step, t, r)
    requires n in s.networks && n in site.quota && Usage(s, n) <= site.quota[n]
    ensures n in t.networks && Usage(t, n) <= site.quota[n]
  {
    if r == Created || r == Accepted {
      match step
      case CreateNetwork(_, _, _) => SmallerUsage(s, t, n);
      case PostInvites(m, slugs, _) =>
        InvitedUsage(s, t, m, Elements(slugs), n);
        ElementsAtMostLength(slugs);
      case Confirm(id) => ConfirmedUsage(s, id, n);
      case Revoke(id) => SmallerUsage(s, t, n);
      case RemoveIssuer(_, _, _) => SmallerUsage(s, t, n);
    }
  }

  lemma StepKeepsAllQuotas(site: Site, s: Desk, step: Step, t: Desk, r: Response)
    requires Next(site, s, step, t, r)
    ensures QuotaKept(site, s, t)
  {
    forall n | n in s.networks && n in site.quota && Usage(s, n) <= site.quota[n]
      ensures Usage(t, n) <= site.quota[n]
    {
      StepKeepsQuota(site, s, step, t, r, n);
    }
  }

  // ---------- Runs ----------

  datatype Event = Event(step: Step, response: Response)

  ghost predicate Run(site: Site, desks: seq<Desk>, events: seq<Event>) {
    && |desks| == |events| + 1
    && forall k | 0 <= k < |events| :: Next(site, desks[k], events[k].step, desks[k + 1], events[k].response)
  }

  /** Memberships that came with their network and were not removed since. */
  function Founders(events: seq<Event>): set<(string, string)> {
    if events == [] then {}
    else
      var last := events[|events| - 1];
      FoundersAfter(Founders(events[..|events| - 1]), last.step, last.response)
  }

  /** After any run from empty tables: at most one pending or approved invite for each pair, membership exactly
      when approved (except for founders), revoked exactly when the status says so. */
  lemma {:induction false} RunsAreConsistent(site: Site, desks: seq<Desk>, events: seq<Event>)
    requires Run(site, desks, events) && desks[0] == Desk({}, map[], 0, {})
    ensures Consistent(desks[|events|], Founders(events)) && Founders(events) <= desks[|events|].members
    decreases |events|
  {
    if events != [] {
      var k := |events| - 1;
      RunsAreConsistent(site, desks[..k + 1], events[..k]);
      StepKeepsConsistent(site, desks[k], Founders(events[..k]), events[k].step, desks[k + 1], events[k].response);
    }
  }

  lemma {:induction false} RunsKeepQuota(
    site: Site, desks: seq<Desk>, events: seq<Event>, n: string)
    requires Run(site, desks, events)
    requires n in desks[0].networks && n in site.quota && Usage(desks[0], n) <= site.quota[n]
    ensures Usage(desks[|events|], n) <= site.quota[n]
    decreases |events|
  {
    if events != [] {
      var e := events[0];
      StepKeepsQuota(site, desks[0], e.step, desks[1], e.response, n);
      RunsKeepQuota(site, desks[1..], events[1..], n);
    }
  }

  // ---------- The life of one invite ----------

  /** Pending may become approved or revoked, approved may become revoked, and a pending invite may vanish when
      it is replaced; nothing else happens to an invite, and identifiers are never used again. */
  predicate Later(s: Desk, t: Desk, id: nat) {
    && s.nextId <= t.nextId
    && (id in t.invites && id < s.nextId ==> id in s.invites)
    && (id in s.invites ==>
          if id in t.invites then
            && SamePair(s.invites[id], t.invites[id])
            && (t.invites[id].status == s.invites[id].status
                || (t.invites[id].status == Approved && s.invites[id].status == Pending)
                || (t.invites[id].status == Revoked && Live(s.invites[id])))
          else Live(s.invites[id]))
  }

  lemma StepMovesForward(
    site: Site, s: Desk, founders: set<(string, string)>, step: Step, t: Desk, r: Response, id: nat)
    requires Consistent(s, founders) && Next(site, s, step, t, r)
    ensures Later(s, t, id)
    ensures id in s.invites && s.invites[id].status != Pending ==> id in t.invites
  {
  }

  lemma {:induction false} RunsMoveForward(
    site: Site, desks: seq<Desk>, events: seq<Event>, founders: set<(string, string)>, id: nat)
    requires Run(site, desks, events) && Consistent(desks[0], founders) && founders <= desks[0].members
    ensures Later(desks[0], desks[|events|], id)
    ensures id in desks[0].invites && desks[0].invites[id].status != Pending ==> id in desks[|events|].invites
    decreases |events|
  {
    if events != [] {
      var e := events[0];
      StepMovesForward(site, desks[0], founders, e.step, desks[1], e.response, id);
      StepKeepsConsistent(site, desks[0], founders, e.step, desks[1], e.response);
      RunsMoveForward(site, desks[1..], events[1..], FoundersAfter(founders, e.step, e.response), id);
    }
  }

  /** An invite is accepted at most once, and never after it was revoked, by a later request of any run. */
  lemma AcceptedOnce(
    site: Site, desks: seq<Desk>, events: seq<Event>, founders: set<(string, string)>, id: nat)
    requires Run(site, desks, events) && Consistent(desks[0], founders) && founders <= desks[0].members
    requires |events| >= 2 && events[0].response == Accepted
    requires events[0].step == Confirm(id) || events[0].step == Revoke(id)
    ensures events[|events| - 1] != Event(Confirm(id), Accepted)
  {
    var e, k := events[0], |events| - 1;
    StepKeepsConsistent(site, desks[0], founders, e.step, desks[1], e.response);
    RunsMoveForward(site, desks[1..k + 1], events[1..k], FoundersAfter(founders, e.step, e.response), id);
    assert Later(desks[1], desks[k], id);
    assert Next(site, desks[k], events[k].step, desks[k + 1], events[k].response);
  }
}
