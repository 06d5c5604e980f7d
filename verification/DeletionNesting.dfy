/** What a running deletion can have deleted so far, and when it comes to a row of a path that is gone. */
module DeletionNesting {
  import opened Basics
  import opened DeletionOrder
  import opened DeletionRules
  import opened DeletionRuns

  ghost predicate Covered(db0: Catalog, db: Catalog, gone: set<PathId>, g: PathId) {
    forall x | x in db0.rows && x.path == g && x !in db.rows :: x.badge in Parts(db0, gone)
  }

  lemma ForcedCovered(db0: Catalog, db: Catalog, gone: set<PathId>, g: PathId)
    requires Within(db0, db) && Covered(db0, db, gone, g) && g in db.paths
    ensures Kept(db0, gone, g) <= Kept(db, gone, g)
    ensures Forced(db, gone, g) ==> Forced(db0, gone, g)
  {
    assert Parts(db, gone) <= Parts(db0, gone);
    SubsetCardinality(Kept(db0, gone, g), Kept(db, gone, g));
  }

  lemma HitWithin(db0: Catalog, db: Catalog, less: set<PathId>, below: set<PathId>, g: PathId)
    requires Within(db0, db) && less <= below && Hit(db, less, g)
    ensures Hit(db0, below, g)
  {
    assert Parts(db, less) <= Parts(db0, below);
  }

  lemma BelowWithin(db0: Catalog, db: Catalog, below: set<PathId>, r: PathId, f: PathId)
    requires Within(db0, db) && Below(db0, below, r, f)
    ensures Below(db, below, r, f)
  {
    forall g | g in db.paths && g != f && Hit(db, below, g)
      ensures g in below
    {
      HitWithin(db0, db, below, below, g);
    }
  }

  /** As long as a path is there, nothing has been deleted that only its own deletion would force out; and if p
      itself is gone, it was forced out a second time. */
  ghost predicate Traced(db0: Catalog, p: PathId, db: Catalog) {
    && (p in db.paths ==> Covered(db0, db, Gone(db0, db), p))
    && forall f, gone, below | f in db.paths && Sparing(db0, {p}, gone, f) && Below(db0, below, p, f) ::
         Gone(db0, db) <= gone * below && (p in Gone(db0, db) ==> Twice(db0, {p}, gone, below, p))
  }

  /** Row x of p's list leaves its path with fewer than two rows. */
  ghost predicate Nesting(db0: Catalog, p: PathId, db: Catalog, x: Row) {
    && Partial(db0, p, db) && Traced(db0, p, db)
    && p in db0.paths && x in db0.rows && x.badge == db0.paths[p] && x.path != p
    && x.path in db.paths && |RowsOf(Without(db, x).rows, x.path)| < 2
  }

  lemma NestingCovered(db0: Catalog, p: PathId, db: Catalog, x: Row, gone: set<PathId>, g: PathId)
    requires Nesting(db0, p, db, x) && g in db.paths && Gone(db0, db) <= gone && (p in gone || g == p)
    ensures Within(db0, Without(db, x)) && Covered(db0, Without(db, x), gone, g)
  {
    assert Parts(db0, Gone(db0, db)) <= Parts(db0, gone);
    if p in gone {
      assert Parts(db0, Gone(db0, db) + {p}) <= Parts(db0, gone);
    }
  }

  lemma NestedIsReached(db0: Catalog, p: PathId, db: Catalog, x: Row, gone: set<PathId>, f: PathId)
    requires Nesting(db0, p, db, x) && Sparing(db0, {p}, gone, f) && f in db.paths && f != x.path
    ensures x.path in gone && Gone(db0, db) <= gone
  {
    TracedGone(db0, p, db, gone, f);
    NestingCovered(db0, p, db, x, gone, x.path);
    var q := x.path;
    assert Kept(db0, gone, q) <= RowsOf(Without(db, x).rows, q);
    SubsetCardinality(Kept(db0, gone, q), RowsOf(Without(db, x).rows, q));
    assert Hit(db0, gone, q);
  }

  /** What spares f in the whole catalogue spares it in the nested deletion too. */
  lemma NestedSparing(
    db0: Catalog, p: PathId, db: Catalog, x: Row, gone: set<PathId>, f: PathId, less: set<PathId>)
    requires Nesting(db0, p, db, x) && Sparing(db0, {p}, gone, f) && Gone(db0, db) <= gone
    requires less <= gone && x.path in less && f !in less - {x.path}
    requires forall g | g in gone && g !in less && g in db.paths && g != f :: !Forced(Without(db, x), less, g)
    ensures Sparing(Without(db, x), {x.path}, less, f)
  {
    var mid := Without(db, x);
    forall g | g in mid.paths && g != f
      ensures !Forced(mid, less, g)
    {
      if Forced(mid, less, g) {
        ForcedMonotone(mid, less, gone, g);
        NestingCovered(db0, p, db, x, gone, g);
        ForcedCovered(db0, mid, gone, g);
      }
    }
  }

  lemma TracedGone(db0: Catalog, p: PathId, db: Catalog, gone: set<PathId>, f: PathId)
    requires Traced(db0, p, db) && p in db0.paths && f in db.paths && Sparing(db0, {p}, gone, f)
    ensures Gone(db0, db) <= gone
  {
    assert Below(db0, db0.paths.Keys, p, f);
  }

  /** The nested deletion deletes only what it would if a path it leaves were spared. */
  lemma NestedGone(
    db0: Catalog, p: PathId, db: Catalog, x: Row, gone: set<PathId>, below: set<PathId>, f: PathId)
    requires Nesting(db0, p, db, x) && Sparing(db0, {p}, gone, f) && f in db.paths && Below(db0, below, p, f)
    requires f !in Doomed(Without(db, x), {x.path})
    ensures Doomed(Without(db, x), {x.path}) <= gone * below
  {
    var mid, q := Without(db, x), x.path;
    var more := Doomed(mid, {q});
    DoomedIsStable(mid, {q});
    NestedIsReached(db0, p, db, x, gone, f);
    assert Hit(db0, below, q);
    var less := gone * below * more;
    forall g | g in mid.paths
      ensures !Forced(mid, less, g)
    {
      if Forced(mid, less, g) {
        if g !in more {
          ForcedMonotone(mid, less, more, g);
        } else {
          HitWithin(db0, Without(db, x), less, below, g);
          ForcedMonotone(mid, less, gone, g);
          NestingCovered(db0, p, db, x, gone, g);
          ForcedCovered(db0, mid, gone, g);
        }
      }
    }
    DoomedIsBelow(mid, {q}, less);
  }

  lemma TracedRow(db0: Catalog, p: PathId, db: Catalog, x: Row)
    requires Partial(db0, p, db) && Traced(db0, p, db) && x.path != p
    ensures Traced(db0, p, Without(db, x))
  {
    assert Gone(db0, Without(db, x)) == Gone(db0, db);
  }

  lemma GoneAfter(db0: Catalog, db: Catalog, mid: Catalog, more: set<PathId>)
    requires Within(db0, db) && mid.paths == db.paths && more <= db.paths.Keys
    ensures Gone(db0, Remove(mid, more)) == Gone(db0, db) + more
    ensures Parts(mid, more) <= Parts(db0, Gone(db0, db) + more)
  {
  }

  lemma TracedPathBy(
    db0: Catalog, p: PathId, db: Catalog, x: Row, f: PathId, gone: set<PathId>, below: set<PathId>)
    requires Nesting(db0, p, db, x) && f in db.paths && f !in Doomed(Without(db, x), {x.path})
    requires Sparing(db0, {p}, gone, f) && Below(db0, below, p, f)
    ensures Gone(db0, db) + Doomed(Without(db, x), {x.path}) <= gone * below
    ensures p in Gone(db0, db) + Doomed(Without(db, x), {x.path}) ==> Twice(db0, {p}, gone, below, p)
  {
    var more := Doomed(Without(db, x), {x.path});
    DoomedIsStable(Without(db, x), {x.path});
    NestedGone(db0, p, db, x, gone, below, f);
    if p in more {
      RootForcedAgain(db0, p, db, x, more, gone, below);
    }
  }

  lemma TracedPath(db0: Catalog, p: PathId, db: Catalog, x: Row)
    requires Nesting(db0, p, db, x)
    ensures var mid := Without(db, x);
            Traced(db0, p, Remove(mid, Doomed(mid, {x.path})))
  {
    var mid, q := Without(db, x), x.path;
    var more := Doomed(mid, {q});
    var next := Remove(mid, more);
    DoomedIsStable(mid, {q});
    GoneAfter(db0, db, mid, more);
    assert Parts(db0, Gone(db0, db)) <= Parts(db0, Gone(db0, next));
    forall f, gone, below | f in next.paths && Sparing(db0, {p}, gone, f) && Below(db0, below, p, f)
      ensures Gone(db0, next) <= gone * below
      ensures p in Gone(db0, next) ==> Twice(db0, {p}, gone, below, p)
    {
      TracedPathBy(db0, p, db, x, f, gone, below);
    }
  }

  lemma RootForcedAgain(
    db0: Catalog, p: PathId, db: Catalog, x: Row, more: set<PathId>, gone: set<PathId>, below: set<PathId>)
    requires Nesting(db0, p, db, x) && more == Doomed(Without(db, x), {x.path}) && more <= gone * below
    requires p in more && p in db.paths && Gone(db0, db) <= gone
    ensures Forced(db0, gone - {p}, p) && Hit(db0, below - {p}, p)
  {
    var mid := Without(db, x);
    DoomedIsForced(mid, {x.path}, p);
    HitWithin(db0, Without(db, x), more - {p}, below - {p}, p);
    ForcedMonotone(mid, more - {p}, gone - {p}, p);
    NestingCovered(db0, p, db, x, gone - {p}, p);
    ForcedCovered(db0, mid, gone - {p}, p);
  }

  // ---------- Rows still to come ----------

  lemma BadgeGoneTwice(db0: Catalog, p: PathId, db: Catalog, gone: set<PathId>, below: set<PathId>, f: PathId)
    requires Traced(db0, p, db) && p in db0.paths && db0.paths[p] in Parts(db0, Gone(db0, db))
    requires f in db.paths && Sparing(db0, {p}, gone, f) && Below(db0, below, p, f)
    ensures Twice(db0, {p}, gone, below, p)
  {
    var e :| e in Gone(db0, db) && e in db0.paths && db0.paths[e] == db0.paths[p];
    if e != p {
      assert e in gone * below - {p};
    }
  }

  /** When the path of x goes and y, another row of it, is still to come, y is all that is left. */
  lemma OvertakesSame(db0: Catalog, p: PathId, db: Catalog, x: Row, y: Row, gone: set<PathId>, below: set<PathId>)
    requires Nesting(db0, p, db, x) && Sparing(db0, {p}, gone, x.path)
    requires y in db.rows && y != x && y.path == x.path && y.badge == db0.paths[p]
    ensures Emptied(db0, gone, below, p, x.path)
  {
    var f, mid := x.path, Without(db, x);
    TwoRows(RowsOf(db0.rows, f), x, y);
    assert TwoFor(db0, p, f);
    TracedGone(db0, p, db, gone, f);
    NestingCovered(db0, p, db, x, gone, f);
    assert gone - {f} == gone && db0.paths[p] in Parts(db0, gone);
    if k :| k in Kept(db0, gone, f) {
      TwoRows(RowsOf(mid.rows, f), k, y);
    }
  }

  lemma TwoRows(rows: set<Row>, x: Row, y: Row)
    requires x in rows && y in rows && x != y
    ensures |rows| >= 2
  {
    SubsetCardinality({x, y}, rows);
  }

  /** When another path f goes with the path of x and y, a row of f, is still to come, y is all that is left. */
  lemma OvertakesOther(
    db0: Catalog, p: PathId, db: Catalog, x: Row, y: Row, gone: set<PathId>, below: set<PathId>, f: PathId)
    requires Nesting(db0, p, db, x) && Sparing(db0, {p}, gone, f) && Below(db0, below, p, f)
    requires f != x.path && f != p
    requires y in db.rows && y != x && y.path == f && y.badge == db0.paths[p]
    requires f in Doomed(Without(db, x), {x.path}) && f in db.paths
    ensures Twice(db0, {p}, gone, below, p) || Emptied(db0, gone, below, p, f)
  {
    var mid, q, less := Without(db, x), x.path, gone * below - {p};
    NestedIsReached(db0, p, db, x, gone, f);
    assert Hit(db0, below, q);
    if p in db.paths && Forced(mid, less, p) {
      HitWithin(db0, Without(db, x), less, below - {p}, p);
      ForcedMonotone(mid, less, gone - {p}, p);
      NestingCovered(db0, p, db, x, gone - {p}, p);
      ForcedCovered(db0, mid, gone - {p}, p);
    } else {
      forall g | g in gone && g !in less && g in db.paths && g != f
        ensures !Forced(mid, less, g)
      {
        if Forced(mid, less, g) {
          HitWithin(db0, Without(db, x), less, below, g);
        }
      }
      NestedSparing(db0, p, db, x, gone, f, less);
      SparedIsForced(mid, {q}, less, f);
      HitWithin(db0, Without(db, x), less, below - {p}, f);
      if y.badge in Parts(mid, less) {
        assert db0.paths[p] in Parts(db0, gone * below - {p});
      } else {
        OnlyRow(db0, p, db, x, y, gone, f, less);
      }
    }
  }

  lemma OnlyRow(
    db0: Catalog, p: PathId, db: Catalog, x: Row, y: Row, gone: set<PathId>, f: PathId, less: set<PathId>)
    requires Nesting(db0, p, db, x) && f != x.path && f != p && p in gone && Gone(db0, db) <= gone
    requires f !in gone && less <= gone
    requires y in db.rows && y != x && y.path == f && y.badge == db0.paths[p] && f in db.paths
    requires Forced(Without(db, x), less, f) && y.badge !in Parts(Without(db, x), less)
    ensures |RowsOf(db0.rows, f)| >= 2 && Kept(db0, gone - {f}, f) == {}
  {
    var mid := Without(db, x);
    assert gone - {f} == gone;
    NestingCovered(db0, p, db, x, gone, f);
    assert y in Kept(mid, less, f);
    var z :| z in mid.rows && z.path == f && z.badge in Parts(mid, less);
    TwoRows(RowsOf(db0.rows, f), y, z);
    assert Parts(mid, less) <= Parts(db0, gone);
    if k :| k in Kept(db0, gone, f) {
      TwoRows(Kept(mid, less, f), k, y);
    }
  }

  /** The deletion of p comes to a row of a path that is gone only where the path is overtaken. */
  lemma Overtakes(db0: Catalog, p: PathId, db: Catalog, x: Row, y: Row)
    requires Nesting(db0, p, db, x)
    requires y in db0.rows && y != x && y.badge == db0.paths[p] && y.path != p && y.path in db.paths
    requires y !in db.rows ==> db0.paths[p] in Parts(db0, Gone(db0, db))
    requires y.path in Doomed(Without(db, x), {x.path})
    ensures Overtaken(db0, {p}, p, y.path)
  {
    var mid, q, f := Without(db, x), x.path, y.path;
    ContainedWithout(db0, p, db, x);
    ShortPathIsDoomed(db0, p, mid, x);
    NestedDoom(db0, p, mid, q);
    assert Linked(db0, {p}, p, f);
    forall gone, below | Sparing(db0, {p}, gone, f) && Below(db0, below, p, f)
      ensures AheadBy(db0, {p}, gone, below, p, f)
    {
      if y !in db.rows {
        BadgeGoneTwice(db0, p, db, gone, below, f);
      } else if f == q {
        OvertakesSame(db0, p, db, x, y, gone, below);
      } else {
        OvertakesOther(db0, p, db, x, y, gone, below, f);
      }
    }
  }

  // ---------- Nested deletions ----------

  lemma TwiceInRoot(db0: Catalog, p: PathId, db: Catalog, x: Row, less: set<PathId>, gone: set<PathId>)
    requires Nesting(db0, p, db, x) && less <= gone && Gone(db0, db) + {p} <= gone
    requires Forced(Without(db, x), less - {x.path}, x.path)
    ensures |RowsOf(db0.rows, x.path)| >= 2 && Kept(db0, gone - {x.path}, x.path) == {}
  {
    var mid, q := Without(db, x), x.path;
    var z :| z in mid.rows && z.path == q && z.badge in Parts(mid, less - {q});
    TwoRows(RowsOf(db0.rows, q), x, z);
    NestingCovered(db0, p, db, x, gone - {q}, q);
    assert Parts(mid, less - {q}) <= Parts(db0, gone - {q});
    if k :| k in Kept(db0, gone - {q}, q) {
      TwoRows(RowsOf(mid.rows, q), k, z);
    }
  }

  /** What is deleted twice in the nested deletion is deleted twice in the whole. */
  lemma TwiceNested(
    db0: Catalog, p: PathId, db: Catalog, x: Row, less: set<PathId>, gone: set<PathId>, below: set<PathId>, r: PathId)
    requires Nesting(db0, p, db, x) && Twice(Without(db, x), {x.path}, less, below, r)
    requires less <= gone && Gone(db0, db) <= gone && p in gone && (r == p ==> less == gone)
    ensures Twice(db0, {p}, gone, below, r)
  {
    var mid, q := Without(db, x), x.path;
    assert Parts(mid, less * below - {r}) <= Parts(db0, gone * below - {r});
    if db0.paths[r] !in Parts(db0, gone * below - {r}) {
      HitWithin(db0, Without(db, x), below - {r}, below - {r}, r);
      if r == q {
        TwiceInRoot(db0, p, db, x, less, gone);
      } else {
        ForcedAgainNested(db0, p, db, x, less, gone, r);
      }
    }
  }

  lemma ForcedAgainNested(
    db0: Catalog, p: PathId, db: Catalog, x: Row, less: set<PathId>, gone: set<PathId>, r: PathId)
    requires Nesting(db0, p, db, x) && r in db.paths && r != x.path
    requires |RowsOf(Without(db, x).rows, r)| >= 2 && Kept(Without(db, x), less - {r}, r) == {}
    requires less <= gone && Gone(db0, db) <= gone && p in gone && (r == p ==> less == gone)
    ensures |RowsOf(db0.rows, r)| >= 2 && Kept(db0, gone - {r}, r) == {}
    ensures r == p ==> Forced(db0, gone - {r}, r)
  {
    var mid := Without(db, x);
    SubsetCardinality(RowsOf(mid.rows, r), RowsOf(db0.rows, r));
    NestingCovered(db0, p, db, x, gone - {r}, r);
    ForcedCovered(db0, mid, gone - {r}, r);
    assert Kept(mid, gone - {r}, r) <= Kept(mid, less - {r}, r);
    if r == p {
      var z :| z in RowsOf(mid.rows, p);
      assert z !in Kept(mid, gone - {p}, p);
    }
  }

  lemma LinkedNested(db0: Catalog, p: PathId, db: Catalog, x: Row, r: PathId, f: PathId)
    requires Nesting(db0, p, db, x) && Linked(Without(db, x), {x.path}, r, f)
    ensures Linked(db0, {p}, r, f)
    ensures Doomed(Without(db, x), {x.path}) <= Doomed(db0, {p}) && x.path in Doomed(db0, {p})
  {
    ContainedWithout(db0, p, db, x);
    ShortPathIsDoomed(db0, p, Without(db, x), x);
    NestedDoom(db0, p, Without(db, x), x.path);
  }

  lemma ClosedNested(db0: Catalog, p: PathId, db: Catalog, x: Row, gone: set<PathId>)
    requires Nesting(db0, p, db, x) && Closed(db0, {p}, gone)
    ensures Closed(Without(db, x), {x.path}, gone) && Gone(db0, db) <= gone
  {
    var mid := Without(db, x);
    DoomedIsBelow(db0, {p}, gone);
    ContainedWithout(db0, p, db, x);
    ShortPathIsDoomed(db0, p, mid, x);
    forall g | g in mid.paths
      ensures !Forced(mid, gone, g)
    {
      NestingCovered(db0, p, db, x, gone, g);
      ForcedCovered(db0, mid, gone, g);
    }
  }

  /** p itself is forced out again by the nested deletion. */
  lemma RootIsForced(db0: Catalog, p: PathId, db: Catalog, x: Row, gone: set<PathId>)
    requires Nesting(db0, p, db, x) && Sparing(db0, {p}, gone, p) && p in Doomed(Without(db, x), {x.path})
    requires p in db.paths
    ensures Sparing(Without(db, x), {x.path}, gone - {p}, p) && Forced(db0, gone - {p}, p)
  {
    var mid, less := Without(db, x), gone - {p};
    NestedIsReached(db0, p, db, x, gone, p);
    NestedSparing(db0, p, db, x, gone, p, less);
    SparedIsForced(mid, {x.path}, less, p);
    NestingCovered(db0, p, db, x, less, p);
    ForcedCovered(db0, mid, less, p);
  }

  lemma EmptiedNested(
    db0: Catalog, p: PathId, db: Catalog, x: Row, less: set<PathId>, gone: set<PathId>, below: set<PathId>, r: PathId,
    f: PathId)
    requires Nesting(db0, p, db, x) && Emptied(Without(db, x), less, below, r, f) && f in db.paths
    requires less - {f} == gone - {f} && Gone(db0, db) <= gone && p in gone
    ensures Emptied(db0, gone, below, r, f)
  {
    var mid := Without(db, x);
    NestingCovered(db0, p, db, x, gone - {f}, f);
    ForcedCovered(db0, mid, gone - {f}, f);
    SubsetCardinality(RowsOf(mid.rows, f), RowsOf(db0.rows, f));
    if Hit(mid, below - {r}, f) {
      HitWithin(db0, Without(db, x), below - {r}, below - {r}, f);
    }
  }

  lemma AheadNestedBy(
    db0: Catalog, p: PathId, db: Catalog, x: Row, r: PathId, f: PathId, gone: set<PathId>, below: set<PathId>)
    requires Nesting(db0, p, db, x) && Ahead(Without(db, x), {x.path}, r, f) && f != x.path && f != r
    requires f in db.paths && f in Doomed(Without(db, x), {x.path})
    requires Sparing(db0, {p}, gone, f) && Below(db0, below, r, f)
    ensures AheadBy(db0, {p}, gone, below, r, f)
  {
    var mid, q := Without(db, x), x.path;
    var less := if f == p then gone - {p} else gone;
    NestedIsReached(db0, p, db, x, gone, f);
    if f == p {
      RootIsForced(db0, p, db, x, gone);
    } else {
      NestedSparing(db0, p, db, x, gone, f, less);
    }
    BelowWithin(db0, Without(db, x), below, r, f);
    assert AheadBy(mid, {q}, less, below, r, f);
    if Twice(mid, {q}, less, below, r) {
      TwiceNested(db0, p, db, x, less, gone, below, r);
    } else {
      EmptiedNested(db0, p, db, x, less, gone, below, r, f);
    }
  }

  lemma AheadNested(db0: Catalog, p: PathId, db: Catalog, x: Row, r: PathId, f: PathId)
    requires Nesting(db0, p, db, x) && Ahead(Without(db, x), {x.path}, r, f) && f != x.path && f != r
    requires f in db.paths && f in Doomed(Without(db, x), {x.path})
    ensures Ahead(db0, {p}, r, f)
  {
    forall gone, below | Sparing(db0, {p}, gone, f) && Below(db0, below, r, f)
      ensures AheadBy(db0, {p}, gone, below, r, f)
    {
      AheadNestedBy(db0, p, db, x, r, f, gone, below);
    }
  }

  lemma OvertakenNested(db0: Catalog, p: PathId, db: Catalog, x: Row, r: PathId, f: PathId)
    requires Nesting(db0, p, db, x) && Overtaken(Without(db, x), {x.path}, r, f) && f != x.path
    ensures Overtaken(db0, {p}, r, f)
  {
    LinkedNested(db0, p, db, x, r, f);
    AheadNested(db0, p, db, x, r, f);
  }

  lemma LeftForRoot(db0: Catalog, p: PathId, db: Catalog, x: Row, y: Row, r: PathId)
    requires Nesting(db0, p, db, x) && y in Without(db, x).rows && y.path == x.path
    requires r in db.paths && y.badge == db.paths[r]
    ensures LeftFor(db0, {p}, r, x.path)
  {
    var mid, q := Without(db, x), x.path;
    forall gone | Sparing(db0, {p}, gone, q)
      ensures Kept(db0, gone + {r}, q) == {}
    {
      TracedGone(db0, p, db, gone, q);
      NestingCovered(db0, p, db, x, gone, q);
      assert Parts(db0, gone) <= Parts(db0, gone + {r}) && y.badge in Parts(db0, gone + {r});
      if k :| k in Kept(db0, gone + {r}, q) {
        TwoRows(RowsOf(mid.rows, q), k, y);
      }
    }
  }

  lemma TwiceForRoot(
    db0: Catalog, p: PathId, db: Catalog, x: Row, r: PathId, gone: set<PathId>, below: set<PathId>)
    requires Nesting(db0, p, db, x) && Ahead(Without(db, x), {x.path}, r, x.path)
    requires Closed(db0, {p}, gone) && Below(db0, below, r, x.path)
    ensures r in gone && Twice(db0, {p}, gone, below, r)
  {
    var mid, q := Without(db, x), x.path;
    ClosedNested(db0, p, db, x, gone);
    BelowWithin(db0, mid, below, r, q);
    assert Sparing(mid, {q}, gone, q);
    assert AheadBy(mid, {q}, gone, below, r, q);
    TwiceNested(db0, p, db, x, gone, gone, below, r);
  }

  lemma TwiceInTheEndRoot(db0: Catalog, p: PathId, db: Catalog, x: Row, r: PathId)
    requires Nesting(db0, p, db, x) && Ahead(Without(db, x), {x.path}, r, x.path)
    ensures TwiceInTheEnd(db0, {p}, r, x.path)
  {
    forall gone, below | Closed(db0, {p}, gone) && Below(db0, below, r, x.path)
      ensures r in gone && Twice(db0, {p}, gone, below, r)
    {
      TwiceForRoot(db0, p, db, x, r, gone, below);
    }
  }

  /** The root of the nested deletion is forced out again by a row of its own. */
  lemma OvertakenRoot(db0: Catalog, p: PathId, db: Catalog, x: Row, r: PathId)
    requires Nesting(db0, p, db, x) && Overtaken(Without(db, x), {x.path}, r, x.path)
    ensures OvertakenLater(db0, {p}, r, x.path)
  {
    var mid, q := Without(db, x), x.path;
    LinkedNested(db0, p, db, x, r, q);
    var y :| y in mid.rows && y.path == q && y.badge == mid.paths[r];
    TwoRows(RowsOf(db0.rows, q), x, y);
    LeftForRoot(db0, p, db, x, y, r);
    TwiceInTheEndRoot(db0, p, db, x, r);
  }

  lemma TwiceInTheEndNested(db0: Catalog, p: PathId, db: Catalog, x: Row, r: PathId, f: PathId)
    requires Nesting(db0, p, db, x) && TwiceInTheEnd(Without(db, x), {x.path}, r, f)
    ensures TwiceInTheEnd(db0, {p}, r, f)
  {
    forall gone, below | Closed(db0, {p}, gone) && Below(db0, below, r, f)
      ensures r in gone && Twice(db0, {p}, gone, below, r)
    {
      ClosedNested(db0, p, db, x, gone);
      BelowWithin(db0, Without(db, x), below, r, f);
      TwiceNested(db0, p, db, x, gone, gone, below, r);
    }
  }

  lemma LeftForNested(db0: Catalog, p: PathId, db: Catalog, x: Row, r: PathId, f: PathId)
    requires Nesting(db0, p, db, x) && LeftFor(Without(db, x), {x.path}, r, f)
    requires f in db.paths && f != x.path && f != p
    ensures LeftFor(db0, {p}, r, f)
  {
    forall gone | Sparing(db0, {p}, gone, f)
      ensures Kept(db0, gone + {r}, f) == {}
    {
      NestedIsReached(db0, p, db, x, gone, f);
      NestedSparing(db0, p, db, x, gone, f, gone);
      NestingCovered(db0, p, db, x, gone + {r}, f);
      ForcedCovered(db0, Without(db, x), gone + {r}, f);
    }
  }

  lemma OvertakenLaterNested(db0: Catalog, p: PathId, db: Catalog, x: Row, r: PathId, f: PathId)
    requires Nesting(db0, p, db, x) && OvertakenLater(Without(db, x), {x.path}, r, f) && f != p
    ensures OvertakenLater(db0, {p}, r, f)
  {
    LinkedNested(db0, p, db, x, r, f);
    SubsetCardinality(RowsOf(Without(db, x).rows, f), RowsOf(db0.rows, f));
    LeftForNested(db0, p, db, x, r, f);
    TwiceInTheEndNested(db0, p, db, x, r, f);
  }

  lemma AheadRoot(db0: Catalog, p: PathId, db: Catalog, x: Row, r: PathId)
    requires Nesting(db0, p, db, x) && TwiceInTheEnd(db0, {p}, r, p)
    requires p in db.paths && p in Doomed(Without(db, x), {x.path})
    ensures Ahead(db0, {p}, r, p)
  {
    forall gone, below | Sparing(db0, {p}, gone, p) && Below(db0, below, r, p)
      ensures AheadBy(db0, {p}, gone, below, r, p)
    {
      RootIsForced(db0, p, db, x, gone);
      assert Closed(db0, {p}, gone);
    }
  }

  lemma OvertakenLaterRoot(db0: Catalog, p: PathId, db: Catalog, x: Row, r: PathId)
    requires Nesting(db0, p, db, x) && OvertakenLater(Without(db, x), {x.path}, r, p)
    ensures Overtaken(db0, {p}, r, p)
  {
    LinkedNested(db0, p, db, x, r, p);
    TwiceInTheEndNested(db0, p, db, x, r, p);
    AheadRoot(db0, p, db, x, r);
  }

  /** Nested deletions start from a smooth catalogue again. */
  lemma SmoothNested(db0: Catalog, p: PathId, db: Catalog, x: Row)
    requires Nesting(db0, p, db, x) && Smooth(db0, {p})
    ensures Smooth(Without(db, x), {x.path})
  {
    var mid, q := Without(db, x), x.path;
    forall r, f
      ensures !Overtaken(mid, {q}, r, f) && !OvertakenLater(mid, {q}, r, f)
    {
      if Overtaken(mid, {q}, r, f) {
        if f == q {
          OvertakenRoot(db0, p, db, x, r);
        } else {
          OvertakenNested(db0, p, db, x, r, f);
        }
      } else if OvertakenLater(mid, {q}, r, f) {
        if f == p {
          OvertakenLaterRoot(db0, p, db, x, r);
        } else {
          OvertakenLaterNested(db0, p, db, x, r, f);
        }
      }
    }
  }
}
