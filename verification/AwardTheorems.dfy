/** What follows from the contract of BadgeInstanceManager.create, for one call and for whole runs. */
module AwardTheorems {
  import opened Basics
  import opened Text
  import opened AwardRules
  import opened AwardCascade

  // ---------- One call ----------

  /** If nothing was due before, the recipient ends with the least set that has the old holdings and b and is
      closed under every active path. */
  lemma CreateReachesLeastClosed(
    site: Site, before: seq<BadgeInstance>, after: seq<BadgeInstance>, b: BadgeId, r: string)
    requires Awards(site, before, after, b, r) && Stable(site, r)
    requires Closed(site.paths, Held(site, before, r))
    ensures Held(site, before, r) + {b} <= Held(site, after, r)
    ensures Closed(site.paths, Held(site, after, r))
    ensures forall upper: set<BadgeId> ::
              Held(site, before, r) + {b} <= upper && Closed(site.paths, upper) ==> Held(site, after, r) <= upper
  {
    ClosureIsLeast(site.paths, Held(site, before, r), {b});
    ClosureFromClosed(site.paths, Held(site, before, r), {b});
  }

  /** From any state: no path becomes due, and none that contains b stays due. */
  lemma CreateMakesNothingDue(
    site: Site, before: seq<BadgeInstance>, after: seq<BadgeInstance>, b: BadgeId, r: string)
    requires Awards(site, before, after, b, r) && Stable(site, r)
    ensures forall p | p in site.paths && Due(p, Held(site, after, r)) ::
              Due(p, Held(site, before, r)) && b !in p.badges
  {
    DueShrinks(site.paths, Held(site, before, r), {b});
    forall p | p in site.paths && Due(p, Held(site, after, r))
      ensures b !in p.badges
    {
      assert b in Rows(p) <==> b in p.badges;
    }
  }

  /** Exactly when the award leaves no path of b due: either the cascade reaches the identifier it started
      from, or no path with b was waiting for b alone. */
  lemma PathsOfAwardServed(
    site: Site, before: seq<BadgeInstance>, after: seq<BadgeInstance>, b: BadgeId, r: string)
    requires Awards(site, before, after, b, r)
    ensures (forall p | p in site.paths && b in p.badges :: !Due(p, Held(site, after, r)))
        <==> (Stable(site, r) || DueWith(site.paths, b, Held(site, before, r) + {b}) == {})
  {
    if Stable(site, r) {
      CreateMakesNothingDue(site, before, after, b, r);
    } else {
      var held := Held(site, before, r) + {b};
      if p :| p in site.paths && b in p.badges && Due(p, held) {
        assert p.participation in DueWith(site.paths, b, held);
      }
    }
  }

  /** One path, completed by badge 1, with participation badge 2, under a case-sensitive collation. */
  function OnePath(): Site {
    Site([LearningPath([1], 2, 1, true, false)], s => s, s => s)
  }

  lemma OnePathCompletes(held: set<BadgeId>)
    requires 1 in held
    ensures 2 in held <==> !Due(OnePath().paths[0], held)
  {
    assert Rows(OnePath().paths[0]) * held == {1};
  }

  lemma UpperCaseIsNotStable()
    ensures Lower("A") == "a" && !Stable(OnePath(), "A")
  {
    assert Lower("A")[0] == 'a' && "A"[0] == 'A';
  }

  /** An upper-case identifier: the recipient completes the path and never gets its badge, which goes to the
      lower-cased identifier. */
  lemma UppercaseRecipientMissesOut(after: seq<BadgeInstance>)
    requires Awards(OnePath(), [], after, 1, "A")
    ensures Held(OnePath(), after, "A") == {1} && 2 in Held(OnePath(), after, "a")
    ensures Due(OnePath().paths[0], Held(OnePath(), after, "A"))
  {
    var p := OnePath().paths[0];
    UpperCaseIsNotStable();
    assert Held(OnePath(), [], "A") == {};
    assert {} + {1} == {1};
    OnePathCompletes({1});
    assert p in OnePath().paths;
    assert p.participation in DueWith(OnePath().paths, 1, {1});
    ClosureIsLeast(OnePath().paths, Held(OnePath(), [], "a"), DueWith(OnePath().paths, 1, {1}));
  }

  /** Number of unrevoked instances of c that r has. */
  function Instances(site: Site, table: seq<BadgeInstance>, c: BadgeId, r: string): nat {
    if table == [] then 0
    else
      var last := |table| - 1;
      Instances(site, table[..last], c, r) + if Matches(site, table[last], r) && table[last].badge == c then 1 else 0
  }

  lemma {:induction false} InstancesOfTail(
    site: Site, front: seq<BadgeInstance>, tail: seq<BadgeInstance>, badges: set<BadgeId>, c: BadgeId, r: string)
    requires OneEach(tail, badges) && forall row | row in tail :: Matches(site, row, r)
    ensures Instances(site, front + tail, c, r) == Instances(site, front, c, r) + if c in badges then 1 else 0
    decreases |tail|
  {
    if tail == [] {
      assert front + tail == front;
      assert badges == {};
    } else {
      var k := |tail| - 1;
      var init, last := tail[..k], tail[k];
      assert tail == init + [last];
      OneEachInit(init, last, badges);
      InstancesOfTail(site, front, init, badges - {last.badge}, c, r);
      var all := front + tail;
      assert all[..|all| - 1] == front + init && all[|all| - 1] == last;
    }
  }

  lemma {:induction false} InstancesOfOthers(
    site: Site, front: seq<BadgeInstance>, tail: seq<BadgeInstance>, c: BadgeId, r: string)
    requires forall row | row in tail :: !Matches(site, row, r)
    ensures Instances(site, front + tail, c, r) == Instances(site, front, c, r)
    decreases |tail|
  {
    if tail == [] {
      assert front + tail == front;
    } else {
      var k := |tail| - 1;
      InstancesOfOthers(site, front, tail[..k], c, r);
      var all := front + tail;
      assert all[..|all| - 1] == front + tail[..k] && all[|all| - 1] == tail[k];
    }
  }

  lemma {:induction false} SameIdentifier(site: Site, table: seq<BadgeInstance>, r: string, s: string, c: BadgeId)
    requires site.collate(r) == site.collate(s)
    ensures Held(site, table, r) == Held(site, table, s) && Instances(site, table, c, r) == Instances(site, table, c, s)
  {
    if table != [] {
      SameIdentifier(site, table[..|table| - 1], r, s, c);
    }
  }

  /** One more instance of b; of any other class one more exactly when the cascade gave it to a recipient who
      had none; nothing else. Duplicate badge rows and shared participation badges make no difference. */
  lemma AtMostOneOfEach(
    site: Site, before: seq<BadgeInstance>, after: seq<BadgeInstance>, b: BadgeId, r: string, c: BadgeId)
    requires Awards(site, before, after, b, r) && Stable(site, r)
    ensures Instances(site, after, c, r) == Instances(site, before, c, r)
              + (if c == b || (c in Held(site, after, r) && c !in Held(site, before, r)) then 1 else 0)
  {
    var first, tail := BadgeInstance(b, r, false), after[|before| + 1..];
    assert after == (before + [first]) + tail;
    assert [first][0].badge in Badges([first]);
    InstancesOfTail(site, before, [first], {b}, c, r);
    InstancesOfTail(site, before + [first], tail, Held(site, after, r) - Held(site, before, r) - {b}, c, r);
  }

  lemma {:induction false} InstancesOfRows(
    site: Site, front: seq<BadgeInstance>, tail: seq<BadgeInstance>, c: BadgeId, r: string)
    requires forall row | row in tail :: Matches(site, row, r)
    ensures Instances(site, front + tail, c, r) == Instances(site, front, c, r) + Count(tail, c)
    decreases |tail|
  {
    if tail == [] {
      assert front + tail == front;
    } else {
      var k := |tail| - 1;
      InstancesOfRows(site, front, tail[..k], c, r);
      var all := front + tail;
      assert all[..|all| - 1] == front + tail[..k] && all[|all| - 1] == tail[k];
    }
  }

  /** Where the lower-cased identifier is another one, it gets one instance of c for each row of b in a path of
      c that is due to r; and one more exactly if it had none and the cascade of another path was first. */
  lemma StrayCounts(
    site: Site, before: seq<BadgeInstance>, after: seq<BadgeInstance>, b: BadgeId, r: string, c: BadgeId)
    requires Awards(site, before, after, b, r) && !Stable(site, r)
    ensures var dues := CountDue(Joined(site.paths, b), Held(site, before, r) + {b}, c);
            var gained := Instances(site, after, c, Lower(r)) - Instances(site, before, c, Lower(r));
            && (gained == dues || (gained == dues + 1 && c !in Held(site, before, Lower(r))))
            && (dues == 0 ==>
                  (gained == 1 <==> c in Held(site, after, Lower(r)) && c !in Held(site, before, Lower(r))))
    ensures Instances(site, after, c, r) == Instances(site, before, c, r) + if c == b then 1 else 0
  {
    var first, tail := BadgeInstance(b, r, false), after[|before| + 1..];
    var dues := CountDue(Joined(site.paths, b), Held(site, before, r) + {b}, c);
    assert after == (before + [first]) + tail;
    assert [first][0].badge in Badges([first]);
    InstancesOfTail(site, before, [first], {b}, c, r);
    InstancesOfOthers(site, before + [first], tail, c, r);
    InstancesOfOthers(site, before, [first], c, Lower(r));
    InstancesOfRows(site, before + [first], tail, c, Lower(r));
    assert Tally(Count(tail, c), dues, c in Held(site, before, Lower(r)), c in Held(site, after, Lower(r)));
  }

  lemma StrayAgain(
    site: Site, first: seq<BadgeInstance>, second: seq<BadgeInstance>, before: seq<BadgeInstance>,
    after: seq<BadgeInstance>, b: BadgeId, r: string, c: BadgeId)
    requires !Stable(site, r) && Awards(site, first, second, b, r) && Awards(site, before, after, b, r)
    requires Held(site, before, r) == Held(site, first, r) + {b}
    requires Held(site, before, Lower(r)) == Held(site, second, Lower(r))
    ensures Held(site, after, r) == Held(site, first, r) + {b}
    ensures Held(site, after, Lower(r)) == Held(site, second, Lower(r))
    ensures Instances(site, after, c, Lower(r))
         == Instances(site, before, c, Lower(r)) + CountDue(Joined(site.paths, b), Held(site, first, r) + {b}, c)
  {
    var held := Held(site, first, r) + {b};
    var due := DueWith(site.paths, b, held);
    assert held + {b} == held && due + due == due;
    ClosureCompose(site.paths, Held(site, first, Lower(r)), due, due);
    StrayCounts(site, before, after, b, r, c);
    if CountDue(Joined(site.paths, b), held, c) > 0 {
      StrayHeld(site, first, second, b, r, c);
    }
  }

  /** n awards of b to r, one after the other. */
  ghost predicate Repeated(
    site: Site, first: seq<BadgeInstance>, last: seq<BadgeInstance>, b: BadgeId, r: string, n: nat)
    decreases n
  {
    if n == 0 then last == first else exists prior :: Again(site, first, prior, last, b, r, n)
  }

  ghost predicate Again(
    site: Site, first: seq<BadgeInstance>, prior: seq<BadgeInstance>, last: seq<BadgeInstance>, b: BadgeId, r: string,
    n: nat)
    requires n > 0
    decreases n, 0
  {
    Repeated(site, first, prior, b, r, n - 1) && Awards(site, prior, last, b, r)
  }

  /** After the award that led from `first` to `second`: the holdings are the same again, and the lower-cased
      identifier has `more` further instances of c. */
  ghost predicate Piled(
    site: Site, first: seq<BadgeInstance>, second: seq<BadgeInstance>, last: seq<BadgeInstance>,
    b: BadgeId, r: string, c: BadgeId, more: int)
  {
    && Held(site, last, r) == Held(site, first, r) + {b}
    && Held(site, last, Lower(r)) == Held(site, second, Lower(r))
    && Instances(site, last, c, Lower(r)) == Instances(site, second, c, Lower(r)) + more
  }

  lemma PiledMore(
    site: Site, first: seq<BadgeInstance>, second: seq<BadgeInstance>, before: seq<BadgeInstance>,
    after: seq<BadgeInstance>, b: BadgeId, r: string, c: BadgeId, n: int, dues: int)
    requires !Stable(site, r) && Awards(site, first, second, b, r) && Awards(site, before, after, b, r)
    requires dues == CountDue(Joined(site.paths, b), Held(site, first, r) + {b}, c)
    requires Piled(site, first, second, before, b, r, c, (n - 1) * dues)
    ensures Piled(site, first, second, after, b, r, c, n * dues)
  {
    StrayAgain(site, first, second, before, after, b, r, c);
    OneTimeMore(n, dues);
  }

  lemma OneTimeMore(n: int, k: int)
    ensures n * k == (n - 1) * k + k
  {
  }

  /** Awarding b to the same such identifier again gives the lower-cased one the same number again, each time:
      what is due to r stays due. */
  lemma {:induction false} StrayRepeats(
    site: Site, first: seq<BadgeInstance>, second: seq<BadgeInstance>, last: seq<BadgeInstance>,
    b: BadgeId, r: string, n: nat, c: BadgeId, dues: int)
    requires !Stable(site, r) && Awards(site, first, second, b, r) && Repeated(site, second, last, b, r, n)
    requires dues == CountDue(Joined(site.paths, b), Held(site, first, r) + {b}, c)
    ensures Piled(site, first, second, last, b, r, c, n * dues)
    decreases n
  {
    if n > 0 {
      var prior :| Again(site, second, prior, last, b, r, n);
      StrayRepeats(site, first, second, prior, b, r, n - 1, c, dues);
      PiledMore(site, first, second, prior, last, b, r, c, n, dues);
    } else {
      assert n * dues == 0;
    }
  }

  lemma StrayHeld(
    site: Site, before: seq<BadgeInstance>, after: seq<BadgeInstance>, b: BadgeId, r: string, c: BadgeId)
    requires Awards(site, before, after, b, r) && !Stable(site, r)
    requires CountDue(Joined(site.paths, b), Held(site, before, r) + {b}, c) > 0
    ensures c in Held(site, after, Lower(r))
  {
    assert Tally(Count(after[|before| + 1..], c), CountDue(Joined(site.paths, b), Held(site, before, r) + {b}, c),
                 c in Held(site, before, Lower(r)), c in Held(site, after, Lower(r)));
  }

  lemma OthersUntouched(
    site: Site, before: seq<BadgeInstance>, after: seq<BadgeInstance>, b: BadgeId, r: string, other: string)
    requires Awards(site, before, after, b, r)
    requires site.collate(other) != site.collate(r) && site.collate(other) != site.collate(Lower(r))
    ensures forall c :: Instances(site, after, c, other) == Instances(site, before, c, other)
    ensures Held(site, after, other) == Held(site, before, other)
  {
    var n := |before|;
    var first := BadgeInstance(b, r, false);
    var tail := after[n + 1..];
    assert after == (before + [first]) + tail;
    HeldAppend(site, before, first, other);
    HeldFrame(site, before + [first], tail, other);
    forall c
      ensures Instances(site, after, c, other) == Instances(site, before, c, other)
    {
      InstancesOfOthers(site, before, [first], c, other);
      InstancesOfOthers(site, before + [first], tail, c, other);
    }
  }

  // ---------- Runs ----------

  datatype Award = Award(badge: BadgeId, recipient: string)

  ghost predicate Run(site: Site, tables: seq<seq<BadgeInstance>>, awards: seq<Award>) {
    && |tables| == |awards| + 1
    && forall i | 0 <= i < |awards| ::
         Stable(site, awards[i].recipient)
         && Awards(site, tables[i], tables[i + 1], awards[i].badge, awards[i].recipient)
  }

  /** Badges awarded to r, in order. */
  function AwardedTo(site: Site, awards: seq<Award>, r: string): seq<BadgeId> {
    if awards == [] then []
    else (if site.collate(awards[0].recipient) == site.collate(r) then [awards[0].badge] else [])
         + AwardedTo(site, awards[1..], r)
  }

  lemma {:induction false} AwardedToElements(site: Site, awards: seq<Award>, r: string)
    ensures Elements(AwardedTo(site, awards, r))
         == set a | a in awards && site.collate(a.recipient) == site.collate(r) :: a.badge
  {
    if awards != [] {
      var rest := AwardedTo(site, awards[1..], r);
      AwardedToElements(site, awards[1..], r);
      assert awards == [awards[0]] + awards[1..];
      assert Elements([awards[0].badge] + rest) == {awards[0].badge} + Elements(rest);
      assert [] + rest == rest;
    }
  }

  lemma {:induction false} RunIsAwardAll(site: Site, tables: seq<seq<BadgeInstance>>, awards: seq<Award>, r: string)
    requires Run(site, tables, awards)
    ensures Held(site, tables[|awards|], r)
         == AwardAll(site.paths, Held(site, tables[0], r), AwardedTo(site, awards, r))
    decreases |awards|
  {
    if awards != [] {
      var a := awards[0];
      RunIsAwardAll(site, tables[1..], awards[1..], r);
      assert [] + AwardedTo(site, awards[1..], r) == AwardedTo(site, awards[1..], r);
      if site.collate(a.recipient) == site.collate(r) {
        assert Held(site, tables[0], r) == Held(site, tables[0], a.recipient);
        assert Held(site, tables[1], r) == Held(site, tables[1], a.recipient);
        var rest := AwardedTo(site, awards[1..], r);
        assert ([a.badge] + rest)[1..] == rest;
      } else {
        OthersUntouched(site, tables[0], tables[1], a.badge, a.recipient, r);
      }
    }
  }

  /** The same awards in any order, to any recipients, from any table: everyone ends up holding the same
      badge classes. */
  lemma RunsConverge(
    site: Site, tables: seq<seq<BadgeInstance>>, awards: seq<Award>,
    tables': seq<seq<BadgeInstance>>, awards': seq<Award>, r: string)
    requires Run(site, tables, awards) && Run(site, tables', awards')
    requires tables[0] == tables'[0] && multiset(awards) == multiset(awards')
    ensures Held(site, tables[|awards|], r) == Held(site, tables'[|awards'|], r)
  {
    var badges, badges' := AwardedTo(site, awards, r), AwardedTo(site, awards', r);
    RunIsAwardAll(site, tables, awards, r);
    RunIsAwardAll(site, tables', awards', r);
    AwardedToElements(site, awards, r);
    AwardedToElements(site, awards', r);
    assert forall a :: a in awards <==> a in multiset(awards);
    assert forall a :: a in awards' <==> a in multiset(awards');
    assert Elements(badges) == Elements(badges');
    AwardAllIsClosure(site.paths, Held(site, tables[0], r), badges);
    AwardAllIsClosure(site.paths, Held(site, tables[0], r), badges');
  }

  /** A recipient with nothing due never has anything due again, over any run of awards to anyone. */
  lemma {:induction false} RunsStayClosed(
    site: Site, tables: seq<seq<BadgeInstance>>, awards: seq<Award>, r: string)
    requires Run(site, tables, awards) && Closed(site.paths, Held(site, tables[0], r))
    ensures Closed(site.paths, Held(site, tables[|awards|], r))
  {
    RunIsAwardAll(site, tables, awards, r);
    AwardAllIsClosure(site.paths, Held(site, tables[0], r), AwardedTo(site, awards, r));
    ClosureFromClosed(site.paths, Held(site, tables[0], r), Elements(AwardedTo(site, awards, r)));
  }

  /** The number of instances does depend on the order: awarding a path's badge first makes the cascade issue
      the participation badge that is then awarded a second time. */
  lemma InstanceCountDependsOnOrder(
    tables: seq<seq<BadgeInstance>>, tables': seq<seq<BadgeInstance>>)
    requires Run(OnePath(), tables, [Award(1, "a"), Award(2, "a")])
    requires Run(OnePath(), tables', [Award(2, "a"), Award(1, "a")])
    requires tables[0] == [] && tables'[0] == []
    ensures Instances(OnePath(), tables[2], 2, "a") == 2 && Instances(OnePath(), tables'[2], 2, "a") == 1
  {
    var site := OnePath();
    var awards, awards' := [Award(1, "a"), Award(2, "a")], [Award(2, "a"), Award(1, "a")];
    assert awards[0] == Award(1, "a") && awards[1] == Award(2, "a");
    assert awards'[0] == Award(2, "a") && awards'[1] == Award(1, "a");
    assert Held(site, [], "a") == {};
    CreateMakesNothingDue(site, tables[0], tables[1], 1, "a");
    ClosureIsLeast(site.paths, {}, {1});
    assert site.paths[0] in site.paths;
    OnePathCompletes(Held(site, tables[1], "a"));
    ClosureIsLeast(site.paths, {}, {2});
    AtMostOneOfEach(site, tables[0], tables[1], 1, "a", 2);
    AtMostOneOfEach(site, tables[1], tables[2], 2, "a", 2);
    AtMostOneOfEach(site, tables'[0], tables'[1], 2, "a", 2);
    AtMostOneOfEach(site, tables'[1], tables'[2], 1, "a", 2);
  }
}
