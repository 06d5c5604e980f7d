/** BadgeClass.delete: which paths go with a badge class, and what is left of the others. */
module BadgeDeletion {
  import opened Basics
  import opened DeletionNesting
  import opened DeletionOrder
  import opened DeletionRules
  import opened DeletionRuns

  function Containing(db: Catalog, b: BadgeId): set<PathId> {
    set x | x in db.rows && x.badge == b :: x.path
  }

  /** Paths with b and at most two rows: those the deletion of b deletes. */
  function Small(db: Catalog, b: BadgeId): set<PathId> {
    set q | q in Containing(db, b) && |RowsOf(db.rows, q)| <= 2
  }

  /** What the database cascades when b goes: its rows, and the paths it is the participation badge of. */
  function WithoutBadge(db: Catalog, b: BadgeId): Catalog {
    var owners := set q | q in db.paths && db.paths[q] == b;
    Catalog(db.paths - owners, set x | x in db.rows && x.badge != b && x.path !in owners)
  }

  /** No path with b contains the participation badge of any path. */
  ghost predicate Clean(db: Catalog, b: BadgeId) {
    forall x, q | x in db.rows && x.path in Containing(db, b) && q in db.paths :: x.badge != db.paths[q]
  }

  /** The catalogue once the paths in `roots` are deleted on account of b. */
  ghost function AfterRoots(db: Catalog, roots: set<PathId>): Catalog {
    Remove(db, Doomed(db, roots))
  }

  lemma NoRoots(db: Catalog)
    requires Valid(db)
    ensures AfterRoots(db, {}) == db
  {
  }

  /** In a clean catalogue a path with b is deleted only as a root, and otherwise keeps its rows. */
  lemma CleanPaths(db: Catalog, b: BadgeId, roots: set<PathId>, q: PathId)
    requires Valid(db) && Clean(db, b) && q in Containing(db, b) && roots <= db.paths.Keys
    ensures q in Doomed(db, roots) <==> q in roots
    ensures q !in roots ==> RowsOf(AfterRoots(db, roots).rows, q) == RowsOf(db.rows, q)
    ensures q in db.paths && db.paths[q] != b
  {
    DoomedIsStable(db, roots);
    if q in Doomed(db, roots) && q !in roots {
      DoomedIsForced(db, roots, q);
    }
    if q !in roots {
      RemoveRowsOf(db, Doomed(db, roots), q);
    }
  }

  /** Exactly when deleting b leaves every path with two badges or more: no path has three rows or more of
      which fewer than two are for other badges. */
  lemma BadgeDeletionKeepsTwo(db: Catalog, b: BadgeId)
    requires Valid(db) && AllHaveTwo(db) && Clean(db, b)
    ensures var last := WithoutBadge(AfterRoots(db, Small(db, b)), b);
            && b !in (set x | x in last.rows :: x.badge)
            && (AllHaveTwo(last) <==>
                  forall q | q in Containing(db, b) && |RowsOf(db.rows, q)| >= 3 ::
                    |set x | x in RowsOf(db.rows, q) && x.badge != b| >= 2)
  {
    var roots := Small(db, b);
    var mid := AfterRoots(db, roots);
    var last := WithoutBadge(mid, b);
    DoomedIsLeast(db, roots);
    forall q | q in db.paths
      ensures q in last.paths && q in Containing(db, b) ==> |RowsOf(db.rows, q)| >= 3
      ensures q in Containing(db, b) && |RowsOf(db.rows, q)| >= 3 ==>
                q in last.paths && RowsOf(last.rows, q) == set x | x in RowsOf(db.rows, q) && x.badge != b
      ensures q in last.paths && q !in Containing(db, b) ==> |RowsOf(last.rows, q)| >= 2
    {
      if q in Containing(db, b) {
        CleanPaths(db, b, roots, q);
      } else if q in last.paths {
        SurvivorsUntouchedOrTwo(db, Doomed(db, roots), q);
        assert RowsOf(last.rows, q) == RowsOf(mid.rows, q);
      }
    }
  }

  /** In particular when b occurs only once in each path. */
  lemma SingleBadgeDeletionKeepsTwo(db: Catalog, b: BadgeId)
    requires Valid(db) && AllHaveTwo(db) && Clean(db, b)
    requires forall x, y | x in db.rows && y in db.rows && x.badge == b && y.badge == b && x.path == y.path :: x == y
    ensures AllHaveTwo(WithoutBadge(AfterRoots(db, Small(db, b)), b))
  {
    forall q | q in Containing(db, b) && |RowsOf(db.rows, q)| >= 3
      ensures |set x | x in RowsOf(db.rows, q) && x.badge != b| >= 2
    {
      var x :| x in db.rows && x.badge == b && x.path == q;
      assert (set x | x in RowsOf(db.rows, q) && x.badge != b) == RowsOf(db.rows, q) - {x};
    }
    BadgeDeletionKeepsTwo(db, b);
  }

  // ---------- When the deletion of a badge class completes ----------

  /** What spares f spares it in the rounds already done. */
  lemma RoundsGone(db: Catalog, roots: set<PathId>, done: set<PathId>, gone: set<PathId>, f: PathId)
    requires done <= roots && Sparing(db, roots, gone, f) && f !in Doomed(db, done)
    ensures Doomed(db, done) <= gone
  {
    var first := Doomed(db, done);
    DoomedIsStable(db, done);
    forall g | g in db.paths
      ensures !Forced(db, gone * first, g)
    {
      if Forced(db, gone * first, g) {
        if g in first {
          ForcedMonotone(db, gone * first, gone, g);
        } else {
          ForcedMonotone(db, gone * first, first, g);
        }
      }
    }
    DoomedIsBelow(db, done, gone * first);
  }

  /** The state between two rounds: `done` is deleted, s comes next, and roots contain no participation badge. */
  ghost predicate Round(db: Catalog, roots: set<PathId>, done: set<PathId>, s: PathId) {
    && Valid(db) && done <= roots && s in roots && s !in done && s in AfterRoots(db, done).paths
    && forall x, q | x in db.rows && x.path in roots && q in db.paths :: x.badge != db.paths[q]
  }

  lemma RoundCovered(db: Catalog, roots: set<PathId>, done: set<PathId>, s: PathId, gone: set<PathId>, g: PathId)
    requires Round(db, roots, done, s) && Doomed(db, done) <= gone && g in AfterRoots(db, done).paths
    ensures var mid := AfterRoots(db, done);
            Within(db, mid) && Covered(db, mid, gone, g)
  {
    assert Parts(db, Doomed(db, done)) <= Parts(db, gone);
  }

  lemma RoundSparing(db: Catalog, roots: set<PathId>, done: set<PathId>, s: PathId, gone: set<PathId>, f: PathId)
    requires Round(db, roots, done, s) && roots <= gone && Doomed(db, done) <= gone
    requires forall g | g in db.paths && g != f :: !Forced(db, gone, g)
    ensures forall g | g in AfterRoots(db, done).paths && g != f :: !Forced(AfterRoots(db, done), gone, g)
  {
    var mid := AfterRoots(db, done);
    forall g | g in mid.paths && g != f
      ensures !Forced(mid, gone, g)
    {
      RoundCovered(db, roots, done, s, gone, g);
      ForcedCovered(db, mid, gone, g);
    }
  }

  lemma RoundLinked(db: Catalog, roots: set<PathId>, done: set<PathId>, s: PathId, r: PathId, f: PathId)
    requires Round(db, roots, done, s) && Linked(AfterRoots(db, done), {s}, r, f)
    ensures Linked(db, roots, r, f) && f !in roots && f !in Doomed(db, done)
  {
    DoomedCompose(db, done, {s});
    DoomedIsLeast(db, roots);
    DoomedIsLeast(db, done + {s});
  }

  lemma RoundTwice(
    db: Catalog, roots: set<PathId>, done: set<PathId>, s: PathId, gone: set<PathId>, below: set<PathId>, r: PathId)
    requires Round(db, roots, done, s) && Doomed(db, done) <= gone
    requires Twice(AfterRoots(db, done), {s}, gone, below, r)
    ensures Twice(db, roots, gone, below, r)
  {
    var mid := AfterRoots(db, done);
    RoundCovered(db, roots, done, s, gone, r);
    assert Parts(mid, gone * below - {r}) <= Parts(db, gone * below - {r});
    if db.paths[r] !in Parts(db, gone * below - {r}) {
      HitWithin(db, mid, below - {r}, below - {r}, r);
      RoundCovered(db, roots, done, s, gone - {r}, r);
      ForcedCovered(db, mid, gone - {r}, r);
      SubsetCardinality(RowsOf(mid.rows, r), RowsOf(db.rows, r));
    }
  }

  lemma RoundEmptied(
    db: Catalog, roots: set<PathId>, done: set<PathId>, s: PathId, gone: set<PathId>, below: set<PathId>, r: PathId,
    f: PathId)
    requires Round(db, roots, done, s) && Doomed(db, done) <= gone && f in AfterRoots(db, done).paths
    requires Emptied(AfterRoots(db, done), gone, below, r, f)
    ensures Emptied(db, gone, below, r, f)
  {
    var mid := AfterRoots(db, done);
    RoundCovered(db, roots, done, s, gone - {f}, f);
    ForcedCovered(db, mid, gone - {f}, f);
    SubsetCardinality(RowsOf(mid.rows, f), RowsOf(db.rows, f));
    if Hit(mid, below - {r}, f) {
      HitWithin(db, mid, below - {r}, below - {r}, f);
    }
  }

  lemma RoundAhead(db: Catalog, roots: set<PathId>, done: set<PathId>, s: PathId, r: PathId, f: PathId)
    requires Round(db, roots, done, s) && Ahead(AfterRoots(db, done), {s}, r, f)
    requires f in AfterRoots(db, done).paths && f !in roots && f !in Doomed(db, done)
    ensures Ahead(db, roots, r, f)
  {
    var mid := AfterRoots(db, done);
    forall gone, below | Sparing(db, roots, gone, f) && Below(db, below, r, f)
      ensures AheadBy(db, roots, gone, below, r, f)
    {
      RoundsGone(db, roots, done, gone, f);
      RoundSparing(db, roots, done, s, gone, f);
      RoundCovered(db, roots, done, s, gone, f);
      BelowWithin(db, mid, below, r, f);
      assert AheadBy(mid, {s}, gone, below, r, f);
      if Twice(mid, {s}, gone, below, r) {
        RoundTwice(db, roots, done, s, gone, below, r);
      } else {
        RoundEmptied(db, roots, done, s, gone, below, r, f);
      }
    }
  }

  lemma RoundOvertaken(db: Catalog, roots: set<PathId>, done: set<PathId>, s: PathId, r: PathId, f: PathId)
    requires Round(db, roots, done, s) && Overtaken(AfterRoots(db, done), {s}, r, f)
    ensures Overtaken(db, roots, r, f)
  {
    RoundLinked(db, roots, done, s, r, f);
    RoundAhead(db, roots, done, s, r, f);
  }

  lemma RoundLeftFor(db: Catalog, roots: set<PathId>, done: set<PathId>, s: PathId, r: PathId, f: PathId)
    requires Round(db, roots, done, s) && LeftFor(AfterRoots(db, done), {s}, r, f)
    requires f in AfterRoots(db, done).paths && f !in roots && f !in Doomed(db, done)
    ensures LeftFor(db, roots, r, f)
  {
    var mid := AfterRoots(db, done);
    forall gone | Sparing(db, roots, gone, f)
      ensures Kept(db, gone + {r}, f) == {}
    {
      RoundsGone(db, roots, done, gone, f);
      RoundSparing(db, roots, done, s, gone, f);
      assert Sparing(mid, {s}, gone, f);
      RoundCovered(db, roots, done, s, gone + {r}, f);
      ForcedCovered(db, mid, gone + {r}, f);
    }
  }

  lemma RoundTwiceInTheEnd(db: Catalog, roots: set<PathId>, done: set<PathId>, s: PathId, r: PathId, f: PathId)
    requires Round(db, roots, done, s) && TwiceInTheEnd(AfterRoots(db, done), {s}, r, f)
    ensures TwiceInTheEnd(db, roots, r, f)
  {
    var mid := AfterRoots(db, done);
    forall gone, below | Closed(db, roots, gone) && Below(db, below, r, f)
      ensures r in gone && Twice(db, roots, gone, below, r)
    {
      DoomedIsBelow(db, done, gone);
      RoundCovered(db, roots, done, s, gone, s);
      forall g | g in mid.paths
        ensures !Forced(mid, gone, g)
      {
        RoundCovered(db, roots, done, s, gone, g);
        ForcedCovered(db, mid, gone, g);
      }
      BelowWithin(db, mid, below, r, f);
      assert Closed(mid, {s}, gone);
      RoundTwice(db, roots, done, s, gone, below, r);
    }
  }

  lemma RoundOvertakenLater(db: Catalog, roots: set<PathId>, done: set<PathId>, s: PathId, r: PathId, f: PathId)
    requires Round(db, roots, done, s) && OvertakenLater(AfterRoots(db, done), {s}, r, f)
    ensures OvertakenLater(db, roots, r, f)
  {
    RoundLinked(db, roots, done, s, r, f);
    SubsetCardinality(RowsOf(AfterRoots(db, done).rows, f), RowsOf(db.rows, f));
    RoundLeftFor(db, roots, done, s, r, f);
    RoundTwiceInTheEnd(db, roots, done, s, r, f);
  }

  /** A catalogue that is smooth for all roots together stays smooth for each of them in turn. */
  lemma RoundSmooth(db: Catalog, roots: set<PathId>, done: set<PathId>, s: PathId)
    requires Round(db, roots, done, s) && Smooth(db, roots)
    ensures Smooth(AfterRoots(db, done), {s})
  {
    var mid := AfterRoots(db, done);
    forall r, f
      ensures !Overtaken(mid, {s}, r, f) && !OvertakenLater(mid, {s}, r, f)
    {
      if Overtaken(mid, {s}, r, f) {
        RoundOvertaken(db, roots, done, s, r, f);
      } else if OvertakenLater(mid, {s}, r, f) {
        RoundOvertakenLater(db, roots, done, s, r, f);
      }
    }
  }

  /** The simplest case: no path contains the participation badge of a path that goes with b. */
  lemma UnusedPartsAreSmooth(db: Catalog, b: BadgeId)
    requires Valid(db)
    requires forall x, q | x in db.rows && q in Small(db, b) && q in db.paths :: x.badge != db.paths[q]
    ensures Smooth(db, Small(db, b))
  {
    var roots := Small(db, b);
    assert Stable(db, roots);
    DoomedIsLeast(db, roots);
    forall r, f
      ensures !Overtaken(db, roots, r, f) && !OvertakenLater(db, roots, r, f)
    {
      if r !in roots {
        var below := db.paths.Keys + {r};
        assert Sparing(db, roots, roots, f) && Closed(db, roots, roots) && Below(db, below, r, f);
        assert !AheadBy(db, roots, roots, below, r, f);
      }
    }
  }

  // ---------- What is left ----------

  /** Which paths and rows are left of db0 once the paths in `gone` and the badge b are deleted: paths that are not
      gone and do not have b as participation badge, and their rows for other badges than b and those of the
      paths that are gone. */
  ghost predicate LeftOver(db0: Catalog, gone: set<PathId>, b: BadgeId, paths: map<PathId, BadgeId>, rows: set<Row>) {
    && (forall q :: q in paths <==> q in db0.paths && q !in gone && db0.paths[q] != b)
    && (forall q | q in paths :: paths[q] == db0.paths[q])
    && (forall x :: x in rows <==>
          && x in db0.rows && x.path in paths && x.badge != b
          && forall d | d in gone && d in db0.paths :: x.badge != db0.paths[d])
  }

  lemma LeftOverExactly(db: Catalog, roots: set<PathId>, b: BadgeId)
    requires Valid(db)
    ensures var last := WithoutBadge(AfterRoots(db, roots), b);
            LeftOver(db, Doomed(db, roots), b, last.paths, last.rows) && Valid(last)
  {
  }

  // ---------- The loop of BadgeClass.delete ----------

  /** State of the loop over the rows of b, with `todo` still to come. */
  ghost predicate BadgeLooping(db0: Catalog, b: BadgeId, roots: set<PathId>, db: Catalog, todo: seq<Row>) {
    && Valid(db0) && db == AfterRoots(db0, roots)
    && roots <= Containing(db0, b)
    && (forall x | x in todo :: x in db0.rows && x.badge == b)
    && (forall i, j | 0 <= i < j < |todo| :: todo[i] != todo[j])
    && (Clean(db0, b) ==> roots <= Small(db0, b))
    && SmallPending(db0, b, roots, todo)
    && (Clean(db0, b) && !HasDoubledBadge(db0, b) ==> forall x | x in todo :: x.path in db.paths)
    && (forall q | DoubledBadge(db0, b, q) :: DoublePending(db, todo, q))
  }

  /** Small paths not visited yet still have a row in the list. */
  ghost predicate SmallPending(db0: Catalog, b: BadgeId, roots: set<PathId>, todo: seq<Row>) {
    forall q | q in Small(db0, b) && q !in roots :: exists x :: x in todo && x.path == q
  }

  /** q still has a row in the list, and two as long as it is there. */
  ghost predicate DoublePending(db: Catalog, todo: seq<Row>, q: PathId) {
    exists x :: x in todo && x.path == q && (q in db.paths ==> exists y :: y in todo && y != x && y.path == q)
  }

  /** Before each round. */
  lemma BadgeLoopSmooth(db0: Catalog, b: BadgeId, roots: set<PathId>, db: Catalog, todo: seq<Row>)
    requires BadgeLooping(db0, b, roots, db, todo) && |todo| > 0 && todo[0].path in db.paths
    requires |RowsOf(db.rows, todo[0].path)| <= 2
    requires Clean(db0, b) && Smooth(db0, Small(db0, b))
    ensures Smooth(db, {todo[0].path})
  {
    var q := todo[0].path;
    assert q in Containing(db0, b);
    CleanPaths(db0, b, roots, q);
    if q in roots {
      DoomedIsStable(db0, roots);
    } else {
      RoundSmooth(db0, Small(db0, b), roots, q);
    }
  }

  /** A path whose only two rows are both for b. */
  ghost predicate DoubledBadge(db: Catalog, b: BadgeId, q: PathId) {
    q in db.paths && |RowsOf(db.rows, q)| == 2 && forall x | x in RowsOf(db.rows, q) :: x.badge == b
  }

  ghost predicate HasDoubledBadge(db: Catalog, b: BadgeId) {
    exists q :: DoubledBadge(db, b, q)
  }

  lemma BadgeLoopStart(db0: Catalog, b: BadgeId, todo: seq<Row>)
    requires Valid(db0)
    requires forall x :: x in todo <==> x in db0.rows && x.badge == b
    requires forall i, j | 0 <= i < j < |todo| :: todo[i] != todo[j]
    ensures BadgeLooping(db0, b, {}, db0, todo)
  {
    NoRoots(db0);
    forall q | DoubledBadge(db0, b, q)
      ensures exists x :: x in todo && x.path == q && exists y :: y in todo && y != x && y.path == q
    {
      var x :| x in RowsOf(db0.rows, q);
      assert |RowsOf(db0.rows, q) - {x}| == 1;
      var y :| y in RowsOf(db0.rows, q) - {x};
      assert x in todo && y in todo && y != x;
    }
  }

  lemma AfterOneMore(db: Catalog, roots: set<PathId>, q: PathId)
    requires Valid(db)
    ensures var mid := AfterRoots(db, roots);
            && Remove(mid, Doomed(mid, {q})) == AfterRoots(db, roots + {q})
            && Remove(mid, Doomed(mid, {q})).paths.Keys == mid.paths.Keys - Doomed(mid, {q})
            && q in Doomed(mid, {q})
  {
    DoomedCompose(db, roots, {q});
    DoomedIsStable(AfterRoots(db, roots), {q});
  }

  lemma RootIsSmall(db0: Catalog, b: BadgeId, roots: set<PathId>, q: PathId)
    requires Valid(db0) && Clean(db0, b) && q in Containing(db0, b) && roots <= Containing(db0, b)
    requires q in AfterRoots(db0, roots).paths && |RowsOf(AfterRoots(db0, roots).rows, q)| <= 2
    ensures q in Small(db0, b)
  {
    assert roots <= db0.paths.Keys;
    CleanPaths(db0, b, roots, q);
    DoomedIsStable(db0, roots);
  }

  lemma BadgeLoopDelete(db0: Catalog, b: BadgeId, roots: set<PathId>, db: Catalog, todo: seq<Row>)
    requires BadgeLooping(db0, b, roots, db, todo) && |todo| > 0 && todo[0].path in db.paths
    requires |RowsOf(db.rows, todo[0].path)| <= 2
    ensures BadgeLooping(db0, b, roots + {todo[0].path}, Remove(db, Doomed(db, {todo[0].path})), todo[1..])
  {
    var q := todo[0].path;
    assert todo == [todo[0]] + todo[1..];
    AfterOneMore(db0, roots, q);
    assert q in Containing(db0, b);
    if Clean(db0, b) {
      RootIsSmall(db0, b, roots, q);
      if !HasDoubledBadge(db0, b) {
        PendingPathsStay(db0, b, roots, db, todo);
      }
    }
    SmallStay(db0, b, roots, db, todo);
    forall d | DoubledBadge(db0, b, d)
      ensures DoublePending(Remove(db, Doomed(db, {q})), todo[1..], d)
    {
      DoubledStays(db, todo, Remove(db, Doomed(db, {q})), d);
    }
  }

  lemma SmallStay(db0: Catalog, b: BadgeId, roots: set<PathId>, db: Catalog, todo: seq<Row>)
    requires BadgeLooping(db0, b, roots, db, todo) && |todo| > 0
    ensures SmallPending(db0, b, roots + {todo[0].path}, todo[1..])
  {
    assert todo == [todo[0]] + todo[1..];
  }

  /** Only a path with two rows for b goes while one of them is still to come. */
  lemma PendingPathStays(db0: Catalog, b: BadgeId, roots: set<PathId>, db: Catalog, x: Row, y: Row)
    requires Valid(db0) && db == AfterRoots(db0, roots) && roots <= Containing(db0, b) && roots <= db0.paths.Keys
    requires Clean(db0, b) && !HasDoubledBadge(db0, b)
    requires x in db0.rows && y in db0.rows && x.badge == b && y.badge == b && x != y
    requires x.path in db.paths && y.path in db.paths && |RowsOf(db.rows, x.path)| <= 2
    ensures y.path !in Doomed(db, {x.path})
  {
    var q := x.path;
    assert q in Containing(db0, b) && y.path in Containing(db0, b);
    DoomedCompose(db0, roots, {q});
    CleanPaths(db0, b, roots, q);
    CleanPaths(db0, b, roots, y.path);
    CleanPaths(db0, b, roots + {q}, y.path);
    if y.path == q {
      NotDoubled(db0, b, x, y);
    }
  }

  lemma PendingPathsStay(db0: Catalog, b: BadgeId, roots: set<PathId>, db: Catalog, todo: seq<Row>)
    requires BadgeLooping(db0, b, roots, db, todo) && |todo| > 0 && todo[0].path in db.paths
    requires |RowsOf(db.rows, todo[0].path)| <= 2 && Clean(db0, b) && !HasDoubledBadge(db0, b)
    ensures forall y | y in todo[1..] :: y.path !in Doomed(db, {todo[0].path})
  {
    assert todo == [todo[0]] + todo[1..];
    forall y | y in todo[1..]
      ensures y.path !in Doomed(db, {todo[0].path})
    {
      PendingPathStays(db0, b, roots, db, todo[0], y);
    }
  }

  lemma NotDoubled(db: Catalog, b: BadgeId, x: Row, y: Row)
    requires Valid(db) && !HasDoubledBadge(db, b)
    requires x in db.rows && y in db.rows && x.badge == b && y.badge == b && x != y && x.path == y.path
    ensures |RowsOf(db.rows, x.path)| > 2
  {
    var rows := RowsOf(db.rows, x.path);
    SubsetCardinality({x, y}, rows);
    if |rows| == 2 {
      assert |rows - {x, y}| == 0;
      assert DoubledBadge(db, b, x.path);
    }
  }

  lemma DoubledStays(db: Catalog, todo: seq<Row>, next: Catalog, d: PathId)
    requires DoublePending(db, todo, d) && |todo| > 0 && todo[0].path in db.paths
    requires next.paths.Keys <= db.paths.Keys - {todo[0].path}
    ensures DoublePending(next, todo[1..], d)
  {
    assert todo == [todo[0]] + todo[1..];
  }

  lemma BadgeLoopKeep(db0: Catalog, b: BadgeId, roots: set<PathId>, db: Catalog, todo: seq<Row>)
    requires BadgeLooping(db0, b, roots, db, todo) && |todo| > 0 && todo[0].path in db.paths
    requires |RowsOf(db.rows, todo[0].path)| > 2
    ensures BadgeLooping(db0, b, roots, db, todo[1..])
  {
    var q := todo[0].path;
    assert todo == [todo[0]] + todo[1..];
    assert q in Containing(db0, b);
    assert RowsOf(db.rows, q) <= RowsOf(db0.rows, q);
    SubsetCardinality(RowsOf(db.rows, q), RowsOf(db0.rows, q));
  }

  /** An abandoned deletion of b has only removed what deleting every path with b would. */
  ghost predicate BadgeContained(db0: Catalog, b: BadgeId, db: Catalog) {
    var doomed := Doomed(db0, Containing(db0, b));
    Within(db0, db) && Gone(db0, db) <= doomed && Accounted(db0, db, doomed)
  }

  lemma AfterRootsIsContained(db0: Catalog, b: BadgeId, roots: set<PathId>)
    requires Valid(db0) && roots <= Containing(db0, b)
    ensures BadgeContained(db0, b, AfterRoots(db0, roots))
    ensures Doomed(db0, roots) <= Doomed(db0, Containing(db0, b))
  {
    DoomedIsLeast(db0, roots);
    DoomedIsLeast(db0, Containing(db0, b));
    assert Parts(db0, Doomed(db0, roots)) <= Parts(db0, Doomed(db0, Containing(db0, b)));
  }

  lemma AbandonedIsContained(db0: Catalog, b: BadgeId, roots: set<PathId>, lp: PathId, db: Catalog)
    requires Valid(db0) && roots <= Containing(db0, b) && lp in Containing(db0, b)
    requires Contained(AfterRoots(db0, roots), lp, db)
    ensures BadgeContained(db0, b, db)
  {
    var mid := AfterRoots(db0, roots);
    DoomedCompose(db0, roots, {lp});
    AfterRootsIsContained(db0, b, roots);
    AfterRootsIsContained(db0, b, roots + {lp});
    assert Gone(db0, db) <= Gone(db0, mid) + Gone(mid, db);
    assert Parts(mid, Doomed(mid, {lp})) <= Parts(db0, Doomed(db0, Containing(db0, b)));
  }

  /** b is deleted, and with it the paths in `roots` with all they doom: all small paths with b, and perhaps
      others with b that became small on the way. */
  ghost predicate DeletedWith(db0: Catalog, b: BadgeId, roots: set<PathId>, db: Catalog) {
    && Small(db0, b) <= roots <= Containing(db0, b)
    && db == WithoutBadge(AfterRoots(db0, roots), b)
    && LeftOver(db0, Doomed(db0, roots), b, db.paths, db.rows)
  }

  /** When no row of b is left to visit. */
  lemma BadgeLoopDone(db0: Catalog, b: BadgeId, roots: set<PathId>, db: Catalog)
    requires BadgeLooping(db0, b, roots, db, [])
    ensures DeletedWith(db0, b, roots, WithoutBadge(db, b)) && Valid(WithoutBadge(db, b))
    ensures Clean(db0, b) ==> roots == Small(db0, b)
    ensures !HasDoubledBadge(db0, b)
  {
    LeftOverExactly(db0, roots, b);
  }
}
