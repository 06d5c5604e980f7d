/** What an award means in terms of the rows of the instance table and the fields of the paths. */
module AwardThresholds {
  import opened Basics
  import opened Text
  import opened AwardRules
  import opened AwardCascade
  import opened AwardTheorems
  import opened PathActivation

  /** r has an instance of c that is not revoked. */
  ghost predicate Has(site: Site, table: seq<BadgeInstance>, r: string, c: BadgeId) {
    exists row :: row in table && !row.revoked && row.badge == c && site.collate(row.recipient) == site.collate(r)
  }

  /** These are as many distinct badges of p as it requires, and r has all of them. */
  ghost predicate Reached(
    site: Site, table: seq<BadgeInstance>, r: string, p: LearningPath, badges: set<BadgeId>)
  {
    |badges| >= p.required && forall d | d in badges :: d in p.badges && Has(site, table, r, d)
  }

  lemma HeldExactly(site: Site, table: seq<BadgeInstance>, r: string, c: BadgeId)
    ensures c in Held(site, table, r) <==> Has(site, table, r, c)
  {
    if Has(site, table, r, c) {
      var row :| row in table && !row.revoked && row.badge == c && site.collate(row.recipient) == site.collate(r);
      var i :| 0 <= i < |table| && table[i] == row;
      assert Matches(site, table[i], r);
    }
    if c in Held(site, table, r) {
      var i :| 0 <= i < |table| && Matches(site, table[i], r) && table[i].badge == c;
      assert table[i] in table;
    }
  }

  lemma {:induction false} InstancesExactly(site: Site, table: seq<BadgeInstance>, c: BadgeId, r: string)
    ensures Instances(site, table, c, r) > 0 <==> Has(site, table, r, c)
  {
    if table != [] {
      var init, last := table[..|table| - 1], table[|table| - 1];
      assert table == init + [last];
      InstancesExactly(site, init, c, r);
    }
  }

  lemma CompletedByEnough(p: LearningPath, held: set<BadgeId>, badges: set<BadgeId>)
    requires badges <= held && |badges| >= p.required && forall d | d in badges :: d in p.badges
    ensures Completed(p, held)
  {
    assert badges <= Rows(p) * held;
    SubsetCardinality(badges, Rows(p) * held);
  }

  /** A path is due exactly when it is switched on, not archived, its participation badge is missing and as many
      of its distinct badges as it requires are held. */
  lemma DueExactly(p: LearningPath, held: set<BadgeId>)
    ensures Due(p, held) <==>
              && p.activated && !p.archived && p.participation !in held
              && exists badges: set<BadgeId> ::
                   badges <= held && |badges| >= p.required && forall d | d in badges :: d in p.badges
  {
    if Due(p, held) {
      var badges := Rows(p) * held;
      assert badges <= held && |badges| >= p.required && forall d | d in badges :: d in p.badges;
    }
    forall badges: set<BadgeId> | badges <= held && |badges| >= p.required && forall d | d in badges :: d in p.badges
      ensures Completed(p, held)
    {
      CompletedByEnough(p, held, badges);
    }
  }

  /** Whatever the fixpoint adds is the participation badge of a path that was completed before it came in. */
  lemma {:induction false} GrowEarned(
    paths: seq<LearningPath>, before: set<BadgeId>, awarded: set<BadgeId>, held: set<BadgeId>, c: BadgeId)
    returns (p: LearningPath)
    requires c in Grow(paths, before, awarded, held) && c !in held
    ensures p in paths && p.activated && !p.archived && p.participation == c
    ensures |Rows(p) * (Grow(paths, before, awarded, held) - {c})| >= p.required
    decreases Participations(paths) - held
  {
    var q :| q in paths && Touched(q, before, awarded, held) && Due(q, held)
      && Grow(paths, before, awarded, held) == Grow(paths, before, awarded, held + {q.participation});
    if q.participation == c {
      p := q;
      GrowIsSettled(paths, before, awarded, held + {c});
      var all := Grow(paths, before, awarded, held);
      SubsetCardinality(Rows(p) * held, Rows(p) * (all - {c}));
    } else {
      p := GrowEarned(paths, before, awarded, held + {q.participation}, c);
    }
  }

  /** The badges of p among those held, as rows. */
  lemma RowsReached(site: Site, table: seq<BadgeInstance>, r: string, p: LearningPath, badges: set<BadgeId>)
    requires badges <= Rows(p) * Held(site, table, r) && |badges| >= p.required
    ensures Reached(site, table, r, p, badges)
  {
    forall d | d in badges
      ensures Has(site, table, r, d)
    {
      HeldExactly(site, table, r, d);
    }
  }

  lemma ReachedIsCompleted(
    site: Site, table: seq<BadgeInstance>, r: string, p: LearningPath, badges: set<BadgeId>)
    requires Reached(site, table, r, p, badges)
    ensures Completed(p, Held(site, table, r))
  {
    forall d | d in badges
      ensures d in Held(site, table, r)
    {
      HeldExactly(site, table, r, d);
    }
    CompletedByEnough(p, Held(site, table, r), badges);
  }

  /** The recipient has b afterwards. */
  lemma AwardGiven(site: Site, before: seq<BadgeInstance>, after: seq<BadgeInstance>, b: BadgeId, r: string)
    requires Awards(site, before, after, b, r)
    ensures Has(site, after, r, b)
  {
    assert after[|before|] == (before + [BadgeInstance(b, r, false)])[|before|];
    assert after[|before|] in after;
  }

  /** Every other badge that an award brings its recipient is the participation badge of an active path of which
      the recipient then has the required number of distinct badges, not counting that one. */
  lemma GainsAreEarned(
    site: Site, before: seq<BadgeInstance>, after: seq<BadgeInstance>, b: BadgeId, r: string, c: BadgeId)
    returns (p: LearningPath, badges: set<BadgeId>)
    requires Awards(site, before, after, b, r) && site.collate(Lower(r)) == site.collate(r)
    requires c != b && Has(site, after, r, c) && !Has(site, before, r, c)
    ensures p in site.paths && p.activated && !p.archived && p.participation == c
    ensures Reached(site, after, r, p, badges) && c !in badges
  {
    HeldExactly(site, after, r, c);
    HeldExactly(site, before, r, c);
    var held := Held(site, before, r);
    p := GrowEarned(site.paths, held, {b}, held + {b}, c);
    badges := Rows(p) * (Held(site, after, r) - {c});
    RowsReached(site, after, r, p, badges);
  }

  /** Conversely, whoever then has the required number of distinct badges of an active path with b has its
      participation badge. */
  lemma EnoughIsRewarded(
    site: Site, before: seq<BadgeInstance>, after: seq<BadgeInstance>, b: BadgeId, r: string,
    p: LearningPath, badges: set<BadgeId>)
    requires Awards(site, before, after, b, r) && site.collate(Lower(r)) == site.collate(r)
    requires p in site.paths && p.activated && !p.archived && b in p.badges && Reached(site, after, r, p, badges)
    ensures Has(site, after, r, p.participation)
  {
    ReachedIsCompleted(site, after, r, p, badges);
    CreateMakesNothingDue(site, before, after, b, r);
    HeldExactly(site, after, r, p.participation);
  }

  /** The same where the lower-cased identifier is another one: it gets the participation badge that r lacks. */
  lemma EnoughRewardsLower(
    site: Site, before: seq<BadgeInstance>, after: seq<BadgeInstance>, b: BadgeId, r: string,
    p: LearningPath, badges: set<BadgeId>)
    requires Awards(site, before, after, b, r) && site.collate(Lower(r)) != site.collate(r)
    requires p in site.paths && p.activated && !p.archived && b in p.badges && Reached(site, after, r, p, badges)
    ensures Has(site, after, r, p.participation) || Has(site, after, Lower(r), p.participation)
  {
    var held := Held(site, before, r) + {b};
    ReachedIsCompleted(site, after, r, p, badges);
    HeldExactly(site, after, r, p.participation);
    HeldExactly(site, after, Lower(r), p.participation);
    if p.participation !in held {
      assert p.participation in DueWith(site.paths, b, held);
      ClosureIsLeast(site.paths, Held(site, before, Lower(r)), DueWith(site.paths, b, held));
    }
  }

  /** And everything the lower-cased identifier gains was completed, by r with b, or by itself. */
  lemma LowerGainsAreEarned(
    site: Site, before: seq<BadgeInstance>, after: seq<BadgeInstance>, b: BadgeId, r: string, c: BadgeId)
    returns (p: LearningPath, badges: set<BadgeId>)
    requires Awards(site, before, after, b, r) && site.collate(Lower(r)) != site.collate(r)
    requires Has(site, after, Lower(r), c) && !Has(site, before, Lower(r), c)
    ensures p in site.paths && p.activated && !p.archived && p.participation == c && c !in badges
    ensures (b in p.badges && Reached(site, after, r, p, badges)) || Reached(site, after, Lower(r), p, badges)
  {
    var low, held := Held(site, before, Lower(r)), Held(site, before, r) + {b};
    var due := DueWith(site.paths, b, held);
    HeldExactly(site, after, Lower(r), c);
    HeldExactly(site, before, Lower(r), c);
    if c in due {
      p :| p in site.paths && b in p.badges && Due(p, held) && p.participation == c;
      badges := Rows(p) * held;
      RowsReached(site, after, r, p, badges);
    } else {
      p := GrowEarned(site.paths, low, due, low + due, c);
      badges := Rows(p) * (Held(site, after, Lower(r)) - {c});
      RowsReached(site, after, Lower(r), p, badges);
    }
  }

  /** Switching a path on: whoever is covered and has the required number of distinct badges has its
      participation badge afterwards. */
  lemma ActivationRewardsEnough(
    site: Site, p: LearningPath, identifiers: seq<string>, before: seq<BadgeInstance>, after: seq<BadgeInstance>,
    x: string, id: string, badges: set<BadgeId>)
    requires ServedTo(site, p, identifiers, before, after, x)
    requires id in identifiers && site.collate(id) == site.collate(x) && Reached(site, before, x, p, badges)
    ensures Has(site, after, x, p.participation)
  {
    assert Covered(site, identifiers, x);
    ReachedIsCompleted(site, before, x, p, badges);
    ServedOnce(site, p, Held(site, before, x));
    HeldExactly(site, after, x, p.participation);
    var held := Held(site, before, x);
    ClosureIsLeast(site.paths, held, {p.participation});
    CompletedMonotone(p, held, Served(site, p, true, held));
  }

  lemma {:induction false} Copies(n: nat, x: LearningPath, p: LearningPath)
    ensures multiset(seq(n, _ => x))[p] == if p == x then n else 0
  {
    if n > 0 {
      Copies(n - 1, x, p);
      assert seq(n, _ => x) == seq(n - 1, _ => x) + [x];
    }
  }

  function Looked(p: LearningPath, b: BadgeId): nat {
    if p.activated && !p.archived then multiset(p.badges)[b] else 0
  }

  lemma JoinedFirst(first: LearningPath, rest: seq<LearningPath>, b: BadgeId, p: LearningPath)
    ensures multiset(Joined([first] + rest, b))[p]
         == (if p == first then Looked(first, b) else 0) + multiset(Joined(rest, b))[p]
  {
    var head := if Active(first) then seq(multiset(first.badges)[b], _ => first) else [];
    assert ([first] + rest)[1..] == rest;
    Copies(multiset(first.badges)[b], first, p);
    assert multiset(head + Joined(rest, b)) == multiset(head) + multiset(Joined(rest, b));
  }

  lemma OneMoreFactor(hit: bool, n: int, k: int)
    ensures ((if hit then 1 else 0) + n) * k == (if hit then k else 0) + n * k
  {
  }

  lemma OneMorePath(first: LearningPath, rest: seq<LearningPath>, p: LearningPath)
    ensures multiset([first] + rest)[p] == (if p == first then 1 else 0) + multiset(rest)[p]
  {
  }

  /** How often a path is looked at again: once for each of its rows with b, while it is active. */
  lemma {:induction false} JoinedExactly(paths: seq<LearningPath>, b: BadgeId, p: LearningPath)
    ensures multiset(Joined(paths, b))[p] == multiset(paths)[p] * Looked(p, b)
  {
    if paths != [] {
      var first, rest := paths[0], paths[1..];
      assert paths == [first] + rest;
      JoinedExactly(rest, b, p);
      JoinedFirst(first, rest, b, p);
      OneMorePath(first, rest, p);
      OneMoreFactor(p == first, multiset(rest)[p], Looked(p, b));
    }
  }
}
