/** How many instances a run of awards creates, and exactly when their number does not depend on its order. */
module AwardCounts {
  import opened Basics
  import opened Text
  import opened AwardRules
  import opened AwardCascade
  import opened AwardTheorems

  lemma ClosureMonotone(paths: seq<LearningPath>, held: set<BadgeId>, small: set<BadgeId>, large: set<BadgeId>)
    requires small <= large
    ensures Closure(paths, held, small) <= Closure(paths, held, large)
  {
    ClosureIsLeast(paths, held, small);
    ClosureIsLeast(paths, held, large);
    SettledWeakens(paths, held, large, held, small, Closure(paths, held, large));
  }

  // ---------- The number of instances after a run ----------

  function BeforeFirst(badges: seq<BadgeId>, c: BadgeId): seq<BadgeId> {
    if badges == [] || badges[0] == c then [] else [badges[0]] + BeforeFirst(badges[1..], c)
  }

  /** What is awarded before the first c already makes the cascade issue c. */
  ghost predicate Bonus(paths: seq<LearningPath>, held: set<BadgeId>, badges: seq<BadgeId>, c: BadgeId) {
    c !in held && c in Closure(paths, held, Elements(BeforeFirst(badges, c)))
  }

  /** Another badge first: the cascade from it counts as the first to issue c if it does. */
  lemma BonusOther(paths: seq<LearningPath>, held: set<BadgeId>, b: BadgeId, rest: seq<BadgeId>, c: BadgeId)
    requires c != b && c !in held
    ensures var next := Closure(paths, held, {b});
            Bonus(paths, held, [b] + rest, c) <==> c in next || Bonus(paths, next, rest, c)
  {
    var next, early := Closure(paths, held, {b}), BeforeFirst(rest, c);
    assert ([b] + rest)[0] == b && ([b] + rest)[1..] == rest;
    assert Elements([b] + early) == {b} + Elements(early);
    ClosureCompose(paths, held, {b}, Elements(early));
    ClosureIsLeast(paths, next, Elements(early));
  }

  lemma BonusStep(paths: seq<LearningPath>, held: set<BadgeId>, b: BadgeId, rest: seq<BadgeId>, c: BadgeId)
    ensures var next := Closure(paths, held, {b});
            (if Bonus(paths, held, [b] + rest, c) then 1 else 0)
              == (if Bonus(paths, next, rest, c) then 1 else 0) + (if c != b && c in next && c !in held then 1 else 0)
  {
    ClosureIsLeast(paths, held, {b});
    if c != b && c !in held {
      BonusOther(paths, held, b, rest, c);
    } else if c == b {
      ClosureOfNothing(paths, held);
    }
  }

  lemma AwardToMe(
    site: Site, before: seq<BadgeInstance>, after: seq<BadgeInstance>, b: BadgeId, s: string, r: string, c: BadgeId)
    requires Awards(site, before, after, b, s) && Stable(site, s) && site.collate(s) == site.collate(r)
    ensures Held(site, after, r) == Closure(site.paths, Held(site, before, r), {b})
    ensures Instances(site, after, c, r) == Instances(site, before, c, r)
              + (if c == b || (c in Held(site, after, r) && c !in Held(site, before, r)) then 1 else 0)
  {
    AtMostOneOfEach(site, before, after, b, s, c);
    SameIdentifier(site, before, s, r, c);
    SameIdentifier(site, after, s, r, c);
  }

  /** One instance of c for each award of c to r, and one more exactly if the cascade was first to issue it. */
  lemma {:induction false} RunCounts(
    site: Site, tables: seq<seq<BadgeInstance>>, awards: seq<Award>, r: string, c: BadgeId)
    requires Run(site, tables, awards)
    ensures var badges := AwardedTo(site, awards, r);
            Instances(site, tables[|awards|], c, r)
              == Instances(site, tables[0], c, r) + multiset(badges)[c]
                 + if Bonus(site.paths, Held(site, tables[0], r), badges, c) then 1 else 0
    decreases |awards|
  {
    if awards == [] {
      ClosureOfNothing(site.paths, Held(site, tables[0], r));
    } else {
      var a := awards[0];
      var rest := AwardedTo(site, awards[1..], r);
      RunCounts(site, tables[1..], awards[1..], r, c);
      if site.collate(a.recipient) == site.collate(r) {
        AwardToMe(site, tables[0], tables[1], a.badge, a.recipient, r, c);
        BonusStep(site.paths, Held(site, tables[0], r), a.badge, rest, c);
        assert multiset([a.badge] + rest) == multiset{a.badge} + multiset(rest);
      } else {
        OthersUntouched(site, tables[0], tables[1], a.badge, a.recipient, r);
        assert [] + rest == rest;
      }
    }
  }

  // ---------- Every order of awards can be run ----------

  lemma {:induction false} RowsFor(badges: set<BadgeId>, recipient: string) returns (rows: seq<BadgeInstance>)
    ensures OneEach(rows, badges) && AllFor(rows, recipient)
  {
    if badges == {} {
      rows := [];
    } else {
      var b :| b in badges;
      var more := RowsFor(badges - {b}, recipient);
      OneEachAppend([], {}, BadgeInstance(b, recipient, false), more, badges - {b});
      rows := [] + ([BadgeInstance(b, recipient, false)] + more);
      assert {} + {b} + (badges - {b}) == badges;
    }
  }

  lemma {:induction false} HeldMore(
    site: Site, table: seq<BadgeInstance>, added: seq<BadgeInstance>, recipient: string)
    requires forall row | row in added :: Matches(site, row, recipient)
    ensures Held(site, table + added, recipient) == Held(site, table, recipient) + Badges(added)
    decreases |added|
  {
    if added == [] {
      assert table + added == table;
    } else {
      var k := |added| - 1;
      var init, last := added[..k], added[k];
      assert added == init + [last] && table + added == (table + init) + [last];
      HeldMore(site, table, init, recipient);
      HeldAppend(site, table + init, last, recipient);
      assert forall i | 0 <= i < |added| :: added[i] == if i < k then init[i] else last;
      assert Badges(added) == Badges(init) + {last.badge};
    }
  }

  lemma AwardExists(site: Site, before: seq<BadgeInstance>, b: BadgeId, r: string) returns (after: seq<BadgeInstance>)
    requires Stable(site, r)
    ensures Awards(site, before, after, b, r)
  {
    var held := Held(site, before, r);
    var goal := Closure(site.paths, held, {b});
    var first := BadgeInstance(b, r, false);
    var rows := RowsFor(goal - held - {b}, Lower(r));
    ClosureIsLeast(site.paths, held, {b});
    HeldAppend(site, before, first, r);
    HeldMore(site, before + [first], rows, r);
    after := before + [first] + rows;
    assert after[|before| + 1..] == rows && after[..|before| + 1] == before + [first];
    assert held + {b} + (goal - held - {b}) == goal;
    assert goal - held - {b} == Held(site, after, r) - held - {b};
  }

  lemma {:induction false} RunExists(site: Site, table: seq<BadgeInstance>, awards: seq<Award>)
    returns (tables: seq<seq<BadgeInstance>>)
    requires forall a | a in awards :: Stable(site, a.recipient)
    ensures Run(site, tables, awards) && tables[0] == table
    decreases |awards|
  {
    if awards == [] {
      tables := [table];
    } else {
      var next := AwardExists(site, table, awards[0].badge, awards[0].recipient);
      var more := RunExists(site, next, awards[1..]);
      tables := [table] + more;
      forall i | 0 <= i < |awards|
        ensures Stable(site, awards[i].recipient)
        ensures Awards(site, tables[i], tables[i + 1], awards[i].badge, awards[i].recipient)
      {
        if i > 0 {
          assert tables[i] == more[i - 1] && tables[i + 1] == more[i] && awards[i] == awards[1..][i - 1];
        }
      }
    }
  }

  // ---------- Two orders: c last, and c first ----------

  /** The awards of c to r, or the others. */
  function Selected(site: Site, awards: seq<Award>, r: string, c: BadgeId, wanted: bool): seq<Award> {
    if awards == [] then []
    else
      var hit := site.collate(awards[0].recipient) == site.collate(r) && awards[0].badge == c;
      (if hit == wanted then [awards[0]] else []) + Selected(site, awards[1..], r, c, wanted)
  }

  lemma {:induction false} SelectedAll(site: Site, awards: seq<Award>, r: string, c: BadgeId)
    ensures multiset(Selected(site, awards, r, c, true)) + multiset(Selected(site, awards, r, c, false))
         == multiset(awards)
  {
    if awards != [] {
      SelectedAll(site, awards[1..], r, c);
      assert awards == [awards[0]] + awards[1..];
    }
  }

  lemma {:induction false} SelectedOthers(site: Site, awards: seq<Award>, r: string, c: BadgeId)
    ensures Elements(AwardedTo(site, Selected(site, awards, r, c, false), r))
         == Elements(AwardedTo(site, awards, r)) - {c}
  {
    if awards != [] {
      var others := Selected(site, awards[1..], r, c, false);
      SelectedOthers(site, awards[1..], r, c);
      assert awards == [awards[0]] + awards[1..] && [] + others == others;
      AwardedToFirst(site, awards[0], others, r);
      AwardedToFirst(site, awards[0], awards[1..], r);
    }
  }

  lemma {:induction false} SelectedMine(site: Site, awards: seq<Award>, r: string, c: BadgeId)
    ensures Elements(AwardedTo(site, Selected(site, awards, r, c, true), r))
         == Elements(AwardedTo(site, awards, r)) * {c}
  {
    if awards != [] {
      var mine := Selected(site, awards[1..], r, c, true);
      SelectedMine(site, awards[1..], r, c);
      assert awards == [awards[0]] + awards[1..] && [] + mine == mine;
      AwardedToFirst(site, awards[0], mine, r);
      AwardedToFirst(site, awards[0], awards[1..], r);
    }
  }

  lemma AwardedToFirst(site: Site, a: Award, awards: seq<Award>, r: string)
    ensures AwardedTo(site, [a] + awards, r)
         == (if site.collate(a.recipient) == site.collate(r) then [a.badge] else []) + AwardedTo(site, awards, r)
    ensures Elements(AwardedTo(site, [a] + awards, r))
         == (if site.collate(a.recipient) == site.collate(r) then {a.badge} else {})
            + Elements(AwardedTo(site, awards, r))
  {
    assert ([a] + awards)[1..] == awards;
    var rest := AwardedTo(site, awards, r);
    assert Elements([a.badge] + rest) == {a.badge} + Elements(rest);
    assert [] + rest == rest;
  }

  lemma Associative<T>(a: seq<T>, b: seq<T>, c: seq<T>)
    ensures (a + b) + c == a + (b + c)
  {
  }

  lemma {:induction false} AwardedToAppend(site: Site, front: seq<Award>, back: seq<Award>, r: string)
    ensures AwardedTo(site, front + back, r) == AwardedTo(site, front, r) + AwardedTo(site, back, r)
  {
    if front == [] {
      assert front + back == back;
    } else {
      var a, rest := front[0], front[1..];
      AwardedToAppend(site, rest, back, r);
      assert front == [a] + rest;
      Associative([a], rest, back);
      AwardedToFirst(site, a, rest + back, r);
      AwardedToFirst(site, a, rest, r);
      Associative(if site.collate(a.recipient) == site.collate(r) then [a.badge] else [],
                  AwardedTo(site, rest, r), AwardedTo(site, back, r));
    }
  }

  lemma {:induction false} BeforeFirstAppend(front: seq<BadgeId>, back: seq<BadgeId>, c: BadgeId)
    requires c !in front && |back| > 0 && back[0] == c
    ensures BeforeFirst(front + back, c) == front
  {
    if front != [] {
      BeforeFirstAppend(front[1..], back, c);
      assert front + back == [front[0]] + (front[1..] + back);
    } else {
      assert front + back == back;
    }
  }

  lemma {:induction false} BeforeFirstElements(badges: seq<BadgeId>, c: BadgeId)
    ensures Elements(BeforeFirst(badges, c)) <= Elements(badges) - {c}
    ensures c !in badges ==> BeforeFirst(badges, c) == badges
  {
    if badges != [] && badges[0] != c {
      BeforeFirstElements(badges[1..], c);
      var early := BeforeFirst(badges[1..], c);
      assert Elements([badges[0]] + early) == {badges[0]} + Elements(early);
      assert badges == [badges[0]] + badges[1..];
    }
  }

  ghost predicate RunOf(
    site: Site, table: seq<BadgeInstance>, awards: seq<Award>, tables: seq<seq<BadgeInstance>>, order: seq<Award>)
  {
    Run(site, tables, order) && tables[0] == table && multiset(order) == multiset(awards)
  }

  /** Every run of these awards, in whatever order, from this table leaves r with the same number of c. */
  ghost predicate CountFixed(site: Site, table: seq<BadgeInstance>, awards: seq<Award>, r: string, c: BadgeId) {
    forall tables, order, tables', order' |
      RunOf(site, table, awards, tables, order) && RunOf(site, table, awards, tables', order') ::
      Instances(site, tables[|order|], c, r) == Instances(site, tables'[|order'|], c, r)
  }

  /** Decided before the first award: c is not awarded to r, or r has it already, or the other awards to r do
      not lead to it. */
  ghost predicate Indifferent(paths: seq<LearningPath>, held: set<BadgeId>, badges: set<BadgeId>, c: BadgeId) {
    c !in badges || c in held || c !in Closure(paths, held, badges - {c})
  }

  lemma IndifferentNoBonus(paths: seq<LearningPath>, held: set<BadgeId>, badges: seq<BadgeId>, c: BadgeId)
    requires Indifferent(paths, held, Elements(badges), c) && c in badges
    ensures !Bonus(paths, held, badges, c)
  {
    BeforeFirstElements(badges, c);
    ClosureMonotone(paths, held, Elements(BeforeFirst(badges, c)), Elements(badges) - {c});
  }

  lemma SameBonus(
    paths: seq<LearningPath>, held: set<BadgeId>, badges: seq<BadgeId>, badges': seq<BadgeId>, c: BadgeId)
    requires Elements(badges) == Elements(badges') && Indifferent(paths, held, Elements(badges), c)
    ensures Bonus(paths, held, badges, c) == Bonus(paths, held, badges', c)
  {
    assert (c in badges <==> c in Elements(badges)) && (c in badges' <==> c in Elements(badges'));
    if c in badges {
      IndifferentNoBonus(paths, held, badges, c);
      IndifferentNoBonus(paths, held, badges', c);
    } else {
      BeforeFirstElements(badges, c);
      BeforeFirstElements(badges', c);
    }
  }

  lemma AwardedToMoved(site: Site, front: seq<Award>, a: Award, back: seq<Award>, r: string)
    ensures multiset(AwardedTo(site, front + ([a] + back), r)) == multiset(AwardedTo(site, [a] + (front + back), r))
  {
    AwardedToAppend(site, front, back, r);
    AwardedToAppend(site, front, [a] + back, r);
    AwardedToFirst(site, a, back, r);
    AwardedToFirst(site, a, front + back, r);
  }

  lemma {:induction false} AwardedToPermuted(site: Site, awards: seq<Award>, order: seq<Award>, r: string)
    requires multiset(awards) == multiset(order)
    ensures multiset(AwardedTo(site, awards, r)) == multiset(AwardedTo(site, order, r))
    decreases |awards|
  {
    if awards == [] {
      assert |multiset(order)| == 0;
    } else {
      var a, rest := awards[0], awards[1..];
      var front, back := Around(order, a);
      assert awards == [a] + rest;
      assert multiset(awards) == multiset(rest) + multiset{a};
      OneLess(multiset(rest), multiset(front + back), a);
      AwardedToPermuted(site, rest, front + back, r);
      AwardedToMoved(site, front, a, back, r);
      AwardedToFirst(site, a, front + back, r);
      AwardedToFirst(site, a, rest, r);
    }
  }

  lemma SameElements(badges: seq<BadgeId>, badges': seq<BadgeId>)
    requires multiset(badges) == multiset(badges')
    ensures Elements(badges) == Elements(badges')
  {
    assert forall b :: b in badges <==> b in multiset(badges);
    assert forall b :: b in badges' <==> b in multiset(badges');
  }

  lemma RunOfCounts(
    site: Site, table: seq<BadgeInstance>, awards: seq<Award>, tables: seq<seq<BadgeInstance>>, order: seq<Award>,
    r: string, c: BadgeId)
    requires RunOf(site, table, awards, tables, order)
    ensures Elements(AwardedTo(site, order, r)) == Elements(AwardedTo(site, awards, r))
    ensures Instances(site, tables[|order|], c, r)
              == Instances(site, table, c, r) + multiset(AwardedTo(site, awards, r))[c]
                 + if Bonus(site.paths, Held(site, table, r), AwardedTo(site, order, r), c) then 1 else 0
  {
    AwardedToPermuted(site, awards, order, r);
    SameElements(AwardedTo(site, awards, r), AwardedTo(site, order, r));
    RunCounts(site, tables, order, r, c);
  }

  lemma IndifferentIsFixed(site: Site, table: seq<BadgeInstance>, awards: seq<Award>, r: string, c: BadgeId)
    requires Indifferent(site.paths, Held(site, table, r), Elements(AwardedTo(site, awards, r)), c)
    ensures CountFixed(site, table, awards, r, c)
  {
    forall tables, order, tables', order' |
      RunOf(site, table, awards, tables, order) && RunOf(site, table, awards, tables', order')
      ensures Instances(site, tables[|order|], c, r) == Instances(site, tables'[|order'|], c, r)
    {
      RunOfCounts(site, table, awards, tables, order, r, c);
      RunOfCounts(site, table, awards, tables', order', r, c);
      SameBonus(site.paths, Held(site, table, r), AwardedTo(site, order, r), AwardedTo(site, order', r), c);
    }
  }

  lemma OrderExists(site: Site, table: seq<BadgeInstance>, awards: seq<Award>, order: seq<Award>)
    returns (tables: seq<seq<BadgeInstance>>)
    requires multiset(order) == multiset(awards) && forall a | a in awards :: Stable(site, a.recipient)
    ensures RunOf(site, table, awards, tables, order)
  {
    assert forall a | a in order :: a in multiset(awards);
    tables := RunExists(site, table, order);
  }

  /** With c first the cascade does not issue it, with c last it does. */
  lemma TwoOrders(site: Site, table: seq<BadgeInstance>, awards: seq<Award>, r: string, c: BadgeId)
    requires var badges, held := Elements(AwardedTo(site, awards, r)), Held(site, table, r);
             c in badges && c !in held && c in Closure(site.paths, held, badges - {c})
    ensures var mine, others := Selected(site, awards, r, c, true), Selected(site, awards, r, c, false);
            && Bonus(site.paths, Held(site, table, r), AwardedTo(site, others + mine, r), c)
            && !Bonus(site.paths, Held(site, table, r), AwardedTo(site, mine + others, r), c)
  {
    var mine, others := Selected(site, awards, r, c, true), Selected(site, awards, r, c, false);
    var mineTo, othersTo := AwardedTo(site, mine, r), AwardedTo(site, others, r);
    SelectedMine(site, awards, r, c);
    SelectedOthers(site, awards, r, c);
    AwardedToAppend(site, mine, others, r);
    AwardedToAppend(site, others, mine, r);
    assert c in Elements(mineTo) && c !in Elements(othersTo);
    assert mineTo[0] in Elements(mineTo);
    BeforeFirstAppend(othersTo, mineTo, c);
    BeforeFirstAppend([], mineTo + othersTo, c);
    assert [] + (mineTo + othersTo) == mineTo + othersTo;
    ClosureOfNothing(site.paths, Held(site, table, r));
  }

  lemma DifferentBonus(
    site: Site, table: seq<BadgeInstance>, awards: seq<Award>, tables: seq<seq<BadgeInstance>>, order: seq<Award>,
    tables': seq<seq<BadgeInstance>>, order': seq<Award>, r: string, c: BadgeId)
    requires RunOf(site, table, awards, tables, order) && RunOf(site, table, awards, tables', order')
    requires Bonus(site.paths, Held(site, table, r), AwardedTo(site, order, r), c)
    requires !Bonus(site.paths, Held(site, table, r), AwardedTo(site, order', r), c)
    ensures !CountFixed(site, table, awards, r, c)
  {
    RunOfCounts(site, table, awards, tables, order, r, c);
    RunOfCounts(site, table, awards, tables', order', r, c);
  }

  lemma SelectedOrders(site: Site, awards: seq<Award>, r: string, c: BadgeId)
    ensures var mine, others := Selected(site, awards, r, c, true), Selected(site, awards, r, c, false);
            multiset(others + mine) == multiset(awards) && multiset(mine + others) == multiset(awards)
  {
    SelectedAll(site, awards, r, c);
  }

  /** Exactly when the number of instances of c does not depend on the order of the awards. */
  lemma CountFixedExactly(site: Site, table: seq<BadgeInstance>, awards: seq<Award>, r: string, c: BadgeId)
    requires forall a | a in awards :: Stable(site, a.recipient)
    ensures CountFixed(site, table, awards, r, c)
        <==> Indifferent(site.paths, Held(site, table, r), Elements(AwardedTo(site, awards, r)), c)
  {
    if Indifferent(site.paths, Held(site, table, r), Elements(AwardedTo(site, awards, r)), c) {
      IndifferentIsFixed(site, table, awards, r, c);
    } else {
      var mine, others := Selected(site, awards, r, c, true), Selected(site, awards, r, c, false);
      TwoOrders(site, table, awards, r, c);
      SelectedOrders(site, awards, r, c);
      var tables := OrderExists(site, table, awards, others + mine);
      var tables' := OrderExists(site, table, awards, mine + others);
      DifferentBonus(site, table, awards, tables, others + mine, tables', mine + others, r, c);
    }
  }
}
