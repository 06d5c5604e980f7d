/** Catalogues at which a deletion completes, raises, or does either. */
module DeletionExamples {
  import opened BadgeDeletion
  import opened Basics
  import opened DeletionNesting
  import opened DeletionOrder
  import opened DeletionRules
  import opened DeletionRuns
  import opened DeletionTheorems

  /** Two paths, each with the other's participation badge and one more badge. */
  ghost function MutualPair(): Catalog {
    Catalog(map[1 := 10, 2 := 20], {Row(0, 1, 20), Row(1, 1, 100), Row(2, 2, 10), Row(3, 2, 200)})
  }

  lemma MutualPairUntangled()
    ensures Untangled(MutualPair(), 1)
  {
    var db := MutualPair();
    var doomed := Doomed(db, {1});
    DoomedIsStable(db, {1});
    assert db.paths.Keys == {1, 2};
    assert Row(1, 1, 100) in Kept(db, doomed, 1) && Row(3, 2, 200) in Kept(db, doomed, 2);
    assert Anchored(db, doomed, 1) && Anchored(db, doomed, 2);
  }

  /** Each draws in the other, and still the deletion completes. */
  lemma MutualPairCompletes(outcome: Outcome, last: Catalog)
    requires Run(MutualPair(), 1, outcome, last)
    ensures Untangled(MutualPair(), 1) && outcome == Done
  {
    MutualPairUntangled();
    UntangledIsSmooth(MutualPair(), 1);
    RunExactly(MutualPair(), 1, outcome, last);
  }

  /** Path 3 has a row for path 1's badge and one for path 2's, and path 2 one for path 1's. */
  ghost function Diamond(): Catalog {
    Catalog(map[1 := 10, 2 := 20, 3 := 30],
            {Row(0, 1, 200), Row(1, 1, 201), Row(2, 2, 10), Row(3, 2, 100), Row(4, 3, 10), Row(5, 3, 20)})
  }

  lemma PartIn(db: Catalog, gone: set<PathId>, d: PathId)
    requires d in gone && d in db.paths
    ensures db.paths[d] in Parts(db, gone)
  {
  }

  lemma DiamondForced(gone: set<PathId>)
    requires 1 in gone
    ensures Hit(Diamond(), gone, 2) && Hit(Diamond(), gone, 3)
    ensures 2 !in gone ==> Forced(Diamond(), gone, 2)
    ensures 2 in gone ==> Kept(Diamond(), gone - {3}, 3) == {} && (3 !in gone ==> Forced(Diamond(), gone, 3))
  {
    var db := Diamond();
    PartIn(db, gone, 1);
    assert Row(2, 2, 10) in db.rows && Row(4, 3, 10) in db.rows;
    assert Kept(db, gone, 2) <= {Row(3, 2, 100)};
    SubsetCardinality(Kept(db, gone, 2), {Row(3, 2, 100)});
    PartIn(db, gone - {3}, 1);
    if 2 in gone {
      PartIn(db, gone - {3}, 2);
      PartIn(db, gone, 2);
      assert Kept(db, gone, 3) == {};
    }
  }

  lemma DiamondDoomed()
    ensures 2 in Doomed(Diamond(), {1}) && 3 in Doomed(Diamond(), {1})
  {
    var db := Diamond();
    var doomed := Doomed(db, {1});
    DoomedIsStable(db, {1});
    DiamondForced(doomed);
  }

  lemma DiamondOvertaken()
    ensures Overtaken(Diamond(), {1}, 1, 3)
  {
    var db := Diamond();
    DiamondDoomed();
    assert Row(4, 3, 10) in db.rows && Row(5, 3, 20) in db.rows;
    assert Linked(db, {1}, 1, 3);
    TwoRows(RowsOf(db.rows, 3), Row(4, 3, 10), Row(5, 3, 20));
    forall gone, below | Sparing(db, {1}, gone, 3) && Below(db, below, 1, 3)
      ensures AheadBy(db, {1}, gone, below, 1, 3)
    {
      DiamondForced(gone);
      DiamondForced(below);
      PartIn(db, below - {1}, 2);
    }
  }

  lemma ChildlessRun(db: Catalog, p: PathId)
    requires p in db.paths && forall x | x in db.rows && x.badge == db.paths[p] :: x.path == p
    ensures Run(db, p, Done, WithoutPath(db, p))
  {
    assert Listing(db, p, []);
    assert Loop(db.rows, p, db, [], Done, WithoutPath(db, p));
  }

  /** With two badges in every path, deleting path 1 completes or raises depending on the order of its rows. */
  lemma DiamondDependsOnOrder()
    ensures Valid(Diamond()) && AllHaveTwo(Diamond())
    ensures (exists last :: Run(Diamond(), 1, Done, last)) && exists last :: Run(Diamond(), 1, DoesNotExist, last)
  {
    DiamondOvertaken();
    OvertakenRaises(Diamond(), 1, 3);
    DiamondCompletes();
    DiamondHasTwo();
  }

  lemma DiamondHasTwo()
    ensures AllHaveTwo(Diamond())
  {
    var rows := Diamond().rows;
    TwoRows(RowsOf(rows, 1), Row(0, 1, 200), Row(1, 1, 201));
    TwoRows(RowsOf(rows, 2), Row(2, 2, 10), Row(3, 2, 100));
    TwoRows(RowsOf(rows, 3), Row(4, 3, 10), Row(5, 3, 20));
  }

  /** The row on path 3 first, then the one on path 2. */
  lemma DiamondCompletes()
    ensures exists last :: Run(Diamond(), 1, Done, last)
  {
    var db, b, a := Diamond(), Row(4, 3, 10), Row(2, 2, 10);
    var mid := Without(db, b);
    assert RowsOf(mid.rows, 3) == {Row(5, 3, 20)};
    ChildlessRun(mid, 3);
    var next := WithoutPath(mid, 3);
    var mid2 := Without(next, a);
    assert RowsOf(mid2.rows, 2) == {Row(3, 2, 100)};
    ChildlessRun(mid2, 2);
    var last := WithoutPath(mid2, 2);
    assert Loop(db.rows, 1, last, [], Done, WithoutPath(last, 1));
    assert b !in mid2.rows && mid2.rows < db.rows;
    assert Loop(db.rows, 1, next, [a], Done, WithoutPath(last, 1));
    assert [b, a][1..] == [a];
    assert Loop(db.rows, 1, db, [b, a], Done, WithoutPath(last, 1));
    assert Listing(db, 1, [b, a]);
    assert Run(db, 1, Done, WithoutPath(last, 1));
  }

  /** Path 2 has two rows, both for path 1's badge. */
  ghost function SameBadgeTwice(): Catalog {
    Catalog(map[1 := 10, 2 := 20], {Row(0, 1, 100), Row(1, 1, 101), Row(2, 2, 10), Row(3, 2, 10)})
  }

  /** Deleting path 1 raises, whatever the order. */
  lemma SameBadgeTwiceRaises(outcome: Outcome, last: Catalog)
    requires Run(SameBadgeTwice(), 1, outcome, last)
    ensures Valid(SameBadgeTwice()) && AllHaveTwo(SameBadgeTwice()) && outcome == DoesNotExist
  {
    var db := SameBadgeTwice();
    TwoRows(RowsOf(db.rows, 1), Row(0, 1, 100), Row(1, 1, 101));
    TwoRows(RowsOf(db.rows, 2), Row(2, 2, 10), Row(3, 2, 10));
    assert Saturated(db, 1, 2);
    RunExactly(db, 1, outcome, last);
  }

  /** One path, with badge 5 twice and another badge once. */
  ghost function TwiceAndOne(): Catalog {
    Catalog(map[1 := 10], {Row(0, 1, 5), Row(1, 1, 5), Row(2, 1, 6)})
  }

  /** Deleting badge 5 completes and leaves the path with one badge: its three rows pass the guard. */
  lemma TwiceAndOneLeavesOne()
    ensures var db := TwiceAndOne();
            var last := WithoutBadge(AfterRoots(db, Small(db, 5)), 5);
            && Valid(db) && AllHaveTwo(db)
            && Clean(db, 5) && !HasDoubledBadge(db, 5) && Smooth(db, Small(db, 5))
            && 1 in last.paths && RowsOf(last.rows, 1) == {Row(2, 1, 6)} && !AllHaveTwo(last)
  {
    var db := TwiceAndOne();
    assert RowsOf(db.rows, 1) == {Row(0, 1, 5), Row(1, 1, 5), Row(2, 1, 6)};
    assert Containing(db, 5) <= {1};
    assert Small(db, 5) == {};
    NoRoots(db);
    UnusedPartsAreSmooth(db, 5);
    assert RowsOf(WithoutBadge(db, 5).rows, 1) == {Row(2, 1, 6)};
  }
}
