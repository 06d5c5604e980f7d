/** The request handlers over the invite and membership tables. */
module NetworkDesk {
  import opened NetworkProtocol

  function WithoutPending(invites: map<nat, Invite>, n: string, i: string): map<nat, Invite> {
    map id | id in invites && !IsPendingFor(invites[id], n, {i}) :: invites[id]
  }

  /** Pending invites of one issuer give way to a new one. */
  function InviteOne(s: Desk, n: string, i: string): Desk {
    s.(invites := WithoutPending(s.invites, n, i)[s.nextId := Invite(n, i, Pending, false)], nextId := s.nextId + 1)
  }

  lemma InviteStep(s: Desk, t: Desk, n: string, done: set<string>, i: string)
    requires Invited(s, t, n, done) && i !in done
    requires forall id | id in s.invites :: id < s.nextId
    ensures Invited(s, InviteOne(t, n, i), n, done + {i})
  {
    var u := InviteOne(t, n, i);
    assert u.invites[t.nextId].issuer == i;
    forall j | j in done
      ensures exists id :: id in u.invites && id >= s.nextId && u.invites[id].issuer == j
    {
      var id :| id in t.invites && id >= s.nextId && t.invites[id].issuer == j;
      assert id in u.invites && u.invites[id].issuer == j;
    }
  }

  /** A refused request, or an accepted one, keeps the tables consistent and every quota. */
  lemma StepKeepsAll(site: Site, s: Desk, founders: set<(string, string)>, step: Step, t: Desk, r: Response)
    requires Consistent(s, founders) && founders <= s.members && Next(site, s, step, t, r)
    ensures Consistent(t, FoundersAfter(founders, step, r)) && FoundersAfter(founders, step, r) <= t.members
    ensures QuotaKept(site, s, t)
  {
    StepKeepsConsistent(site, s, founders, step, t, r);
    StepKeepsAllQuotas(site, s, step, t, r);
  }

  /** The pending invites of these issuers are gone and the others are untouched; new ones are pending invites of
      these issuers. */
  ghost predicate Replaced(before: map<nat, Invite>, after: map<nat, Invite>, network: string, slugs: seq<string>) {
    && (forall id | id in before ::
          if before[id].network == network && before[id].issuer in slugs && before[id].status == Pending
          then id !in after
          else id in after && after[id] == before[id])
    && (forall id | id in after && id !in before ::
          after[id] == Invite(network, after[id].issuer, Pending, false) && after[id].issuer in slugs)
  }

  lemma InvitedReplaces(s: Desk, t: Desk, network: string, slugs: seq<string>)
    requires Invited(s, t, network, Elements(slugs)) && WellFormed(s)
    ensures Replaced(s.invites, t.invites, network, slugs)
  {
    assert forall i :: i in Elements(slugs) <==> i in slugs;
  }

  /** Invite `id` alone changes. */
  ghost predicate OnlyInvite(s: Desk, t: Desk, id: nat, v: Invite) {
    && t.networks == s.networks && t.invites.Keys == s.invites.Keys
    && id in t.invites && t.invites[id] == v
    && forall j | j in t.invites && j != id :: t.invites[j] == s.invites[j]
  }

  /** The invite is approved, its issuer was no member and is one now, and no usage changes. */
  ghost predicate ConfirmEffect(s: Desk, t: Desk, id: nat) {
    && id in s.invites
    && var v := s.invites[id];
       && OnlyInvite(s, t, id, v.(status := Approved))
       && (v.network, v.issuer) !in s.members && t.members == s.members + {(v.network, v.issuer)}
       && forall n :: Usage(t, n) == Usage(s, n)
  }

  lemma ConfirmHas(s: Desk, founders: set<(string, string)>, id: nat)
    requires Consistent(s, founders) && id in s.invites && s.invites[id].status == Pending
    ensures ConfirmEffect(s, Confirmed(s, id), id)
  {
    forall n
      ensures Usage(Confirmed(s, id), n) == Usage(s, n)
    {
      ConfirmedUsageSame(s, id, n);
    }
  }

  /** The invite is revoked, its pair has no pending or approved invite left, and the usage of its network drops
      by one. */
  ghost predicate RevokeEffect(s: Desk, t: Desk, id: nat) {
    && id in s.invites
    && var v := s.invites[id];
       && OnlyInvite(s, t, id, v.(status := Revoked, revoked := true)) && t.members == s.members
       && NoLive(t, v.network, v.issuer)
       && forall n :: Usage(t, n) == Usage(s, n) - if n == v.network then 1 else 0
  }

  lemma RevokeHas(s: Desk, founders: set<(string, string)>, id: nat)
    requires Consistent(s, founders) && id in s.invites && s.invites[id].status == Pending
    ensures RevokeEffect(s, RevokedInvite(s, id), id)
  {
    forall n
      ensures Usage(RevokedInvite(s, id), n) == Usage(s, n) - if n == s.invites[id].network then 1 else 0
    {
      RevokedUsage(s, id, n);
    }
  }

  /** Neither membership nor pending or approved invite of the pair is left, only its approved invite changes, and
      the usage of the network drops by one. */
  ghost predicate RemoveEffect(s: Desk, t: Desk, network: string, issuer: string) {
    && t.networks == s.networks && t.members == s.members - {(network, issuer)} && t.invites.Keys == s.invites.Keys
    && NoLive(t, network, issuer)
    && (forall j | j in t.invites && ((s.invites[j].network, s.invites[j].issuer) != (network, issuer)
                                      || s.invites[j].status != Approved) ::
          t.invites[j] == s.invites[j])
    && (forall n :: Usage(t, n) == Usage(s, n) - if n == network then 1 else 0)
  }

  lemma RemoveHas(s: Desk, founders: set<(string, string)>, network: string, issuer: string)
    requires Consistent(s, founders) && (network, issuer) in s.members
    ensures RemoveEffect(s, Removed(s, network, issuer), network, issuer)
  {
    RemovedNoLive(s, founders, network, issuer);
    forall n
      ensures Usage(Removed(s, network, issuer), n) == Usage(s, n) - if n == network then 1 else 0
    {
      RemovedUsage(s, network, issuer, n);
    }
  }

  class Handlers {
    const site: Site
    var networks: set<string>
    var invites: map<nat, Invite>
    var nextId: nat
    var members: set<(string, string)>
    /** The memberships that came with their network and were not removed since. */
    ghost var founders: set<(string, string)>

    constructor (site: Site)
      ensures this.site == site && State() == Desk({}, map[], 0, {}) && founders == {} && Valid()
    {
      this.site := site;
      networks, invites, nextId, members := {}, map[], 0, {};
      founders := {};
    }

    function State(): Desk
      reads this
    {
      Desk(networks, invites, nextId, members)
    }

    ghost predicate Valid()
      reads this
    {
      Consistent(State(), founders) && founders <= members
    }

    /** One step of the protocol from s, in which no network passes its quota and a refusal changes nothing. */
    ghost predicate Stepped(s: Desk, before: set<(string, string)>, step: Step, response: Response)
      reads this
    {
      && Next(site, s, step, State(), response)
      && founders == FoundersAfter(before, step, response)
      && QuotaKept(site, s, State())
      && (response != Created && response != Accepted ==> State() == s)
    }

    /** NetworkSerializerV1.create; `parent` is empty when none was given. */
    method CreateNetwork(network: string, parent: string, parentAllowed: bool) returns (response: Response)
      requires Valid() && network !in networks
      modifies this
      ensures Valid()
      ensures Stepped(old(State()), old(founders), Step.CreateNetwork(network, parent, parentAllowed), response)
      ensures response == Created <==> parent == "" || (parent in site.issuers && parentAllowed)
      ensures response == Created ==>
                && networks == old(networks) + {network} && invites == old(invites)
                && members == old(members) + if parent != "" then {(network, parent)} else {}
      ensures response == Created ==>
                forall n :: Usage(State(), n)
                  == if n != network then Usage(old(State()), n) else if parent != "" then 1 else 0
    {
      ghost var s, before := State(), founders;
      if parent != "" && (parent !in site.issuers || !parentAllowed) {
        return BadRequest;
      }
      networks := networks + {network};
      if parent != "" {
        members := members + {(network, parent)};
      }
      response := Created;
      ghost var step := Step.CreateNetwork(network, parent, parentAllowed);
      assert State() == Founded(s, network, parent);
      founders := FoundersAfter(founders, step, response);
      StepKeepsAll(site, s, before, step, State(), response);
      forall n
        ensures Usage(State(), n) == if n != network then Usage(s, n) else if parent != "" then 1 else 0
      {
        FoundedUsage(s, before, network, parent, n);
      }
    }

    /** NetworkInvitationList.post */
    method PostInvites(network: string, slugs: seq<string>, isEditor: bool) returns (response: Response)
      requires Valid()
      modifies this
      ensures Valid()
      ensures Stepped(old(State()), old(founders), Step.PostInvites(network, slugs, isEditor), response)
      ensures response == Created <==>
                && network in old(networks) && isEditor && slugs != [] && "" !in slugs
                && (forall i | i in slugs :: i in site.issuers && (network, i) !in old(members))
                && (network in site.quota ==> Usage(old(State()), network) + |slugs| <= site.quota[network])
      ensures response == QuotaExceeded <==>
                && network in old(networks) && isEditor && slugs != [] && "" !in slugs
                && network in site.quota && Usage(old(State()), network) + |slugs| > site.quota[network]
      ensures response == Forbidden <==> network in old(networks) && !isEditor
      ensures response == Created ==>
                && networks == old(networks) && members == old(members)
                && Usage(State(), network) <= Usage(old(State()), network) + |Elements(slugs)|
                && forall i | i in slugs :: HasPending(State(), network, i)
      ensures response == Created ==> Replaced(old(invites), invites, network, slugs)
    {
      if network !in networks {
        return NotFound;
      }
      if !isEditor {
        return Forbidden;
      }
      if slugs == [] || "" in slugs {
        return BadRequest;
      }
      if ExceedsQuota(site, State(), network, |slugs|) {
        return QuotaExceeded;
      }
      var targets := Elements(slugs);
      if !(targets <= site.issuers) {
        return NotFound;
      }
      if exists i :: i in slugs && (network, i) in members {
        return BadRequest;
      }
      InviteAll(network, targets);
      response := Created;
      StepKeepsAll(site, old(State()), founders, Step.PostInvites(network, slugs, isEditor), State(), response);
      InvitedUsage(old(State()), State(), network, targets, network);
      InvitedPendingFor(old(State()), State(), network, targets);
      InvitedReplaces(old(State()), State(), network, slugs);
    }

    /** The loop of NetworkInvitationList.post */
    method InviteAll(network: string, targets: set<string>)
      requires forall id | id in invites :: id < nextId
      modifies this`invites, this`nextId
      ensures Invited(old(State()), State(), network, targets)
    {
      ghost var start := State();
      var left := targets;
      while left != {}
        invariant left <= targets
        invariant Invited(start, State(), network, targets - left)
        decreases left
      {
        var issuer :| issuer in left;
        InviteStep(start, State(), network, targets - left, issuer);
        invites := WithoutPending(invites, network, issuer);
        invites := invites[nextId := Invite(network, issuer, Pending, false)];
        nextId := nextId + 1;
        assert targets - (left - {issuer}) == targets - left + {issuer};
        left := left - {issuer};
      }
      assert targets - left == targets;
    }

    /** NetworkInvitationConfirm.put */
    method Confirm(id: nat) returns (response: Response)
      requires Valid()
      modifies this
      ensures Valid()
      ensures Stepped(old(State()), old(founders), Step.Confirm(id), response)
      ensures response == Accepted <==> id in old(invites) && old(invites)[id].status == Pending
      ensures response == NotFound <==> id !in old(invites)
      ensures response == Accepted ==> ConfirmEffect(old(State()), State(), id)
    {
      ghost var s := State();
      if id !in invites {
        return NotFound;
      }
      var invitation := invites[id];
      if invitation.status == Approved {
        return BadRequest;
      }
      if invitation.status != Pending {
        return BadRequest;
      }
      invites := invites[id := invitation.(status := Approved)];
      members := members + {(invitation.network, invitation.issuer)};
      response := Accepted;
      StepKeepsAll(site, s, founders, Step.Confirm(id), State(), response);
      ConfirmHas(s, founders, id);
    }

    /** NetworkInvitation.delete */
    method Revoke(id: nat) returns (response: Response)
      requires Valid()
      modifies this
      ensures Valid()
      ensures Stepped(old(State()), old(founders), Step.Revoke(id), response)
      ensures response == Accepted <==> id in old(invites) && old(invites)[id].status == Pending
      ensures response == AlreadyRevoked <==> id in old(invites) && old(invites)[id].status == Revoked
      ensures response == NotFound <==> id !in old(invites)
      ensures response == Accepted ==> RevokeEffect(old(State()), State(), id)
    {
      ghost var s := State();
      if id !in invites {
        return NotFound;
      }
      var invite := invites[id];
      if invite.status != Pending {
        if invite.status == Revoked {
          return AlreadyRevoked;
        }
        return BadRequest;
      }
      invites := invites[id := invite.(status := Revoked, revoked := true)];
      response := Accepted;
      StepKeepsAll(site, s, founders, Step.Revoke(id), State(), response);
      RevokeHas(s, founders, id);
    }

    /** NetworkIssuerDetail.delete */
    method RemoveIssuer(network: string, issuer: string, isEditor: bool) returns (response: Response)
      requires Valid()
      modifies this
      ensures Valid()
      ensures Stepped(old(State()), old(founders), Step.RemoveIssuer(network, issuer, isEditor), response)
      ensures response == Accepted <==> isEditor && (network, issuer) in old(members)
      ensures response == Forbidden <==> network in old(networks) && !isEditor
      ensures response == Accepted ==> RemoveEffect(old(State()), State(), network, issuer)
    {
      ghost var s, before := State(), founders;
      if network !in networks {
        return NotFound;
      }
      if !isEditor {
        return Forbidden;
      }
      if (network, issuer) !in members {
        return NotFound;
      }
      members := members - {(network, issuer)};
      invites := map id | id in invites :: AfterRemoval(invites[id], network, issuer);
      response := Accepted;
      ghost var step := Step.RemoveIssuer(network, issuer, isEditor);
      founders := FoundersAfter(founders, step, response);
      StepKeepsAll(site, s, before, step, State(), response);
      RemoveHas(s, before, network, issuer);
    }
  }
}
