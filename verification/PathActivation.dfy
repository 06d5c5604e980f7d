/** The job that runs when a path is switched on: everyone who already completed it gets its badge, and with
    it whatever that badge completes.
 */
module PathActivation {
  import opened Basics
  import opened Text
  import opened AwardRules
  import opened AwardCascade
  import opened AwardTheorems

  ghost predicate Covered(site: Site, identifiers: seq<string>, x: string) {
    exists id | id in identifiers :: site.collate(id) == site.collate(x)
  }

  /** Holdings after the job, for someone who held `held`. */
  ghost function Served(site: Site, p: LearningPath, covered: bool, held: set<BadgeId>): set<BadgeId> {
    if covered && Wanting(p, held) then Closure(site.paths, held, {p.participation}) else held
  }

  lemma ServedOnce(site: Site, p: LearningPath, held: set<BadgeId>)
    ensures !Wanting(p, Served(site, p, true, held))
  {
    ClosureIsLeast(site.paths, held, {p.participation});
  }

  /** Every identifier whose award can reach x is served under x itself. */
  ghost predicate Clear(site: Site, identifiers: seq<string>, x: string) {
    forall id | id in identifiers && (site.collate(id) == site.collate(x) || site.collate(Lower(id)) == site.collate(x)) ::
      Stable(site, id)
  }

  /** x is served, with exactly one new instance of each badge class it gained and none of any other. */
  ghost predicate ServedTo(
    site: Site, p: LearningPath, identifiers: seq<string>, start: seq<BadgeInstance>, table: seq<BadgeInstance>,
    x: string)
  {
    && Held(site, table, x) == Served(site, p, Covered(site, identifiers, x), Held(site, start, x))
    && forall c ::
         Instances(site, table, c, x)
           == Instances(site, start, c, x) + if c in Held(site, table, x) - Held(site, start, x) then 1 else 0
  }

  lemma ServedMe(
    site: Site, start: seq<BadgeInstance>, prior: seq<BadgeInstance>, table: seq<BadgeInstance>,
    p: LearningPath, identifiers: seq<string>, i: nat, x: string)
    requires i < |identifiers| && Stable(site, identifiers[i])
    requires site.collate(identifiers[i]) == site.collate(x)
    requires ServedTo(site, p, identifiers[..i], start, prior, x) && Wanting(p, Held(site, prior, x))
    requires Awards(site, prior, table, p.participation, Lower(identifiers[i]))
    ensures ServedTo(site, p, identifiers[..i + 1], start, table, x)
  {
    var low := Lower(identifiers[i]);
    LowerIdempotent(identifiers[i]);
    assert identifiers[..i + 1] == identifiers[..i] + [identifiers[i]];
    assert Covered(site, identifiers[..i + 1], x);
    if Covered(site, identifiers[..i], x) {
      ServedOnce(site, p, Held(site, start, x));
    }
    assert Held(site, prior, x) == Held(site, start, x);
    ClosureIsLeast(site.paths, Held(site, start, x), {p.participation});
    forall c
      ensures Instances(site, table, c, x)
           == Instances(site, start, c, x) + if c in Held(site, table, x) - Held(site, start, x) then 1 else 0
    {
      SameIdentifier(site, prior, low, x, c);
      SameIdentifier(site, table, low, x, c);
      AtMostOneOfEach(site, prior, table, p.participation, low, c);
    }
    SameIdentifier(site, prior, low, x, 0);
    SameIdentifier(site, table, low, x, 0);
  }

  lemma ActivationStep(
    site: Site, start: seq<BadgeInstance>, prior: seq<BadgeInstance>, table: seq<BadgeInstance>,
    p: LearningPath, identifiers: seq<string>, i: nat, x: string)
    requires i < |identifiers| && Clear(site, identifiers, x)
    requires ServedTo(site, p, identifiers[..i], start, prior, x)
    requires if Wanting(p, Held(site, prior, identifiers[i]))
             then Awards(site, prior, table, p.participation, Lower(identifiers[i])) else table == prior
    ensures ServedTo(site, p, identifiers[..i + 1], start, table, x)
  {
    var id := identifiers[i];
    assert identifiers[..i + 1] == identifiers[..i] + [id];
    LowerIdempotent(id);
    SameIdentifierIfEqual(site, prior, id, x);
    if site.collate(id) == site.collate(x) {
      assert Covered(site, identifiers[..i + 1], x);
      if Wanting(p, Held(site, prior, id)) {
        ServedMe(site, start, prior, table, p, identifiers, i, x);
      }
    } else {
      assert Covered(site, identifiers[..i + 1], x) == Covered(site, identifiers[..i], x);
      if Wanting(p, Held(site, prior, id)) {
        OthersUntouched(site, prior, table, p.participation, Lower(id), x);
      }
    }
  }

  lemma SameIdentifierIfEqual(site: Site, table: seq<BadgeInstance>, id: string, x: string)
    ensures site.collate(id) == site.collate(x) ==> Held(site, table, id) == Held(site, table, x)
  {
    if site.collate(id) == site.collate(x) {
      SameIdentifier(site, table, id, x, 0);
    }
  }

  /** process_learning_path_activation, over the verified identifiers of all users. */
  method ProcessActivation(manager: BadgeInstanceManager, p: LearningPath, identifiers: seq<string>)
    modifies manager
    ensures forall x | Clear(manager.site, identifiers, x) ::
              ServedTo(manager.site, p, identifiers, old(manager.table), manager.table, x)
  {
    var site := manager.site;
    ghost var start := manager.table;
    for i := 0 to |identifiers|
      invariant forall x | Clear(site, identifiers, x) ::
                  ServedTo(site, p, identifiers[..i], start, manager.table, x)
    {
      var id := identifiers[i];
      ghost var prior := manager.table;
      QueriesAreRules(site, prior, p, id);
      if UserShouldHaveBadge(site, manager.table, p, id) {
        var _ := manager.Issue(p.participation, id, Email, false);
      }
      forall x | Clear(site, identifiers, x)
        ensures ServedTo(site, p, identifiers[..i + 1], start, manager.table, x)
      {
        ActivationStep(site, start, prior, manager.table, p, identifiers, i, x);
      }
    }
    assert identifiers[..|identifiers|] == identifiers;
  }

  /** Switching path k on and running the job leaves nothing due to anyone it covers who had nothing due. */
  lemma ActivationServesEveryone(
    paths: seq<LearningPath>, k: nat, site: Site, before: seq<BadgeInstance>, after: seq<BadgeInstance>,
    identifiers: seq<string>, x: string)
    requires k < |paths| && Closed(paths, Held(site, before, x)) && !paths[k].archived
    requires var p := paths[k].(activated := true);
             && site.paths == paths[k := p]
             && Held(site, after, x) == Served(site, p, Covered(site, identifiers, x), Held(site, before, x))
    requires Covered(site, identifiers, x)
    ensures Closed(site.paths, Held(site, after, x))
  {
    ActivationRestoresClosed(paths, k, Held(site, before, x));
  }
}
