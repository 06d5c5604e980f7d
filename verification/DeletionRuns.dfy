/** Deleting one path, as a relation: every order of rows, nested deletions included. */
module DeletionRuns {
  import opened Basics
  import opened DeletionRules

  /** Normal completion, a row whose path another call has deleted meanwhile, or a refusal because of
      assertions that still count. */
  datatype Outcome = Done | DoesNotExist | Protected

  function Without(db: Catalog, x: Row): Catalog {
    db.(rows := db.rows - {x})
  }

  function WithoutPath(db: Catalog, p: PathId): Catalog {
    Catalog(db.paths - {p}, db.rows - RowsOf(db.rows, p))
  }

  /** The rows for p's badge outside p, in some order. */
  ghost predicate Listing(db: Catalog, p: PathId, list: seq<Row>) {
    && p in db.paths
    && (forall x :: x in list <==> x in db.rows && x.badge == db.paths[p] && x.path != p)
    && (forall i, j | 0 <= i < j < |list| :: list[i] != list[j])
  }

  /** Deleting p from db can end in `last` with this outcome. */
  ghost predicate Run(db: Catalog, p: PathId, outcome: Outcome, last: Catalog)
    decreases db.rows, 1, 0
  {
    exists list :: Listing(db, p, list) && Loop(db.rows, p, db, list, outcome, last)
  }

  /** The same from the middle of p's loop, with the rows in `todo` to come; `start` bounds the nesting. */
  ghost predicate Loop(start: set<Row>, p: PathId, db: Catalog, todo: seq<Row>, outcome: Outcome, last: Catalog)
    decreases start, 0, |todo|
  {
    if todo == [] then outcome.Done? && last == WithoutPath(db, p)
    else
      var mid, q := Without(db, todo[0]), todo[0].path;
      if q !in mid.paths then outcome.DoesNotExist? && last == mid
      else if |RowsOf(mid.rows, q)| >= 2 then Loop(start, p, mid, todo[1..], outcome, last)
      else
        && mid.rows < start
        && exists inner, next ::
             && Run(mid, q, inner, next)
             && (if inner.Done? then Loop(start, p, next, todo[1..], outcome, last)
                 else outcome == inner && last == next)
  }

  // ---------- State of one running deletion ----------

  function Gone(db0: Catalog, db: Catalog): set<PathId> {
    db0.paths.Keys - db.paths.Keys
  }

  ghost predicate Within(db0: Catalog, db: Catalog) {
    && Valid(db)
    && db.rows <= db0.rows
    && forall q | q in db.paths :: q in db0.paths && db0.paths[q] == db.paths[q]
  }

  /** Every row that is missing belonged to a path that is missing, or was for the badge of a path in `gone`. */
  ghost predicate Accounted(db0: Catalog, db: Catalog, gone: set<PathId>) {
    forall x | x in db0.rows && x !in db.rows :: x.path in Gone(db0, db) || x.badge in Parts(db0, gone)
  }

  ghost predicate UntouchedOrTwo(db0: Catalog, db: Catalog, q: PathId) {
    RowsOf(db.rows, q) == RowsOf(db0.rows, q) || |RowsOf(db.rows, q)| >= 2
  }

  /** While p is being deleted, between two rows of its list. */
  ghost predicate Partial(db0: Catalog, p: PathId, db: Catalog) {
    && Within(db0, db)
    && Gone(db0, db) <= Doomed(db0, {p})
    && Accounted(db0, db, Gone(db0, db) + {p})
    && (forall x | x in db.rows :: x.badge !in Parts(db0, Gone(db0, db)))
    && (forall q | q in db.paths :: UntouchedOrTwo(db0, db, q))
  }

  /** What a deletion that is abandoned has done so far stays inside the doomed paths and their badges. */
  ghost predicate Contained(db0: Catalog, p: PathId, db: Catalog) {
    && Within(db0, db)
    && Gone(db0, db) <= Doomed(db0, {p})
    && Accounted(db0, db, Doomed(db0, {p}))
  }

  lemma PartialIsContained(db0: Catalog, p: PathId, db: Catalog)
    requires Partial(db0, p, db)
    ensures Contained(db0, p, db)
  {
    DoomedIsLeast(db0, {p});
    assert Parts(db0, Gone(db0, db) + {p}) <= Parts(db0, Doomed(db0, {p}));
  }

  lemma ShortPathIsForced(db0: Catalog, p: PathId, db: Catalog, x: Row)
    requires Contained(db0, p, db) && p in db0.paths && p in Doomed(db0, {p})
    requires x in db0.rows && x !in db.rows && x.badge == db0.paths[p] && x.path in db.paths
    requires |RowsOf(db.rows, x.path)| < 2
    ensures x.path in Doomed(db0, {p}) || Forced(db0, Doomed(db0, {p}), x.path)
  {
    var doomed := Doomed(db0, {p});
    if x.path !in doomed {
      assert x.badge in Parts(db0, doomed);
      assert Kept(db0, doomed, x.path) <= RowsOf(db.rows, x.path);
      SubsetCardinality(Kept(db0, doomed, x.path), RowsOf(db.rows, x.path));
    }
  }

  /** A path that a row of p leaves with fewer than two rows is doomed. */
  lemma ShortPathIsDoomed(db0: Catalog, p: PathId, db: Catalog, x: Row)
    requires Contained(db0, p, db) && p in db0.paths
    requires x in db0.rows && x !in db.rows && x.badge == db0.paths[p] && x.path in db.paths
    requires |RowsOf(db.rows, x.path)| < 2
    ensures x.path in Doomed(db0, {p})
  {
    DoomedIsLeast(db0, {p});
    ShortPathIsForced(db0, p, db, x);
  }

  lemma ForcedNested(db0: Catalog, p: PathId, db: Catalog, f: PathId)
    requires Contained(db0, p, db) && Forced(db, Doomed(db0, {p}), f)
    ensures Forced(db0, Doomed(db0, {p}), f)
  {
    var doomed := Doomed(db0, {p});
    assert Parts(db, doomed) <= Parts(db0, doomed);
    assert Kept(db0, doomed, f) <= Kept(db, doomed, f);
    SubsetCardinality(Kept(db0, doomed, f), Kept(db, doomed, f));
  }

  /** What a nested deletion dooms was doomed all along. */
  lemma NestedDoom(db0: Catalog, p: PathId, db: Catalog, q: PathId)
    requires Contained(db0, p, db) && q in Doomed(db0, {p})
    ensures Doomed(db, {q}) <= Doomed(db0, {p})
  {
    var doomed := Doomed(db0, {p});
    DoomedIsLeast(db0, {p});
    DoomedIsLeast(db, {q});
    forall f | f in db.paths
      ensures !Forced(db, doomed, f)
    {
      if Forced(db, doomed, f) {
        ForcedNested(db0, p, db, f);
      }
    }
  }

  lemma ContainedCompose(db0: Catalog, p: PathId, mid: Catalog, q: PathId, db: Catalog)
    requires Contained(db0, p, mid) && q in Doomed(db0, {p}) && Contained(mid, q, db)
    ensures Contained(db0, p, db)
  {
    NestedDoom(db0, p, mid, q);
    assert Parts(mid, Doomed(mid, {q})) <= Parts(db0, Doomed(db0, {p}));
    assert Gone(db0, db) == Gone(db0, mid) + Gone(mid, db);
  }

  lemma ContainedWithout(db0: Catalog, p: PathId, db: Catalog, x: Row)
    requires Partial(db0, p, db) && p in db0.paths && x.badge == db0.paths[p]
    ensures Contained(db0, p, Without(db, x))
  {
    PartialIsContained(db0, p, db);
    DoomedIsLeast(db0, {p});
    assert x.badge in Parts(db0, Doomed(db0, {p}));
  }

  /** One row of the list is deleted and its path keeps enough rows. */
  lemma RowStep(db0: Catalog, p: PathId, db: Catalog, x: Row)
    requires Partial(db0, p, db) && p in db0.paths && x.badge == db0.paths[p]
    requires x.path in db.paths && |RowsOf(Without(db, x).rows, x.path)| >= 2
    ensures Partial(db0, p, Without(db, x))
  {
    var next := Without(db, x);
    assert x.badge in Parts(db0, Gone(db0, next) + {p});
    forall q | q in next.paths
      ensures UntouchedOrTwo(db0, next, q)
    {
      if q != x.path {
        assert RowsOf(next.rows, q) == RowsOf(db.rows, q);
      }
    }
  }

  /** One row of the list is deleted and its path with it. */
  lemma PathStep(db0: Catalog, p: PathId, db: Catalog, x: Row)
    requires Partial(db0, p, db) && p in db0.paths && x in db0.rows && x.badge == db0.paths[p]
    requires x.path in db.paths && |RowsOf(Without(db, x).rows, x.path)| < 2
    ensures var mid := Without(db, x);
            Partial(db0, p, Remove(mid, Doomed(mid, {x.path})))
  {
    var mid := Without(db, x);
    var q := x.path;
    var more := Doomed(mid, {q});
    var next := Remove(mid, more);
    ContainedWithout(db0, p, db, x);
    ShortPathIsDoomed(db0, p, mid, x);
    NestedDoom(db0, p, mid, q);
    DoomedIsStable(mid, {q});
    var gone := Gone(db0, db);
    assert Gone(db0, next) == gone + more;
    assert Parts(mid, more) <= Parts(db0, gone + more);
    assert Parts(db0, gone + more) <= Parts(db0, gone) + Parts(mid, more);
    assert Parts(db0, gone + {p}) <= Parts(db0, gone + more + {p});
    assert x.badge in Parts(db0, gone + more + {p});
    forall f | f in next.paths
      ensures UntouchedOrTwo(db0, next, f)
    {
      assert RowsOf(mid.rows, f) == RowsOf(db.rows, f);
      SurvivorsUntouchedOrTwo(mid, more, f);
    }
  }

  /** A path with no row left for p's badge is not forced out by what is gone. */
  lemma NotForcedNow(db0: Catalog, p: PathId, db: Catalog, q: PathId)
    requires Partial(db0, p, db) && p in db0.paths
    requires forall x | x in db.rows && x.path == q :: x.badge != db0.paths[p]
    ensures !Forced(db0, Gone(db0, db) + {p}, q)
  {
    var gone := Gone(db0, db) + {p};
    assert Parts(db0, gone) == Parts(db0, Gone(db0, db)) + {db0.paths[p]};
    if q in db.paths && q != p {
      assert UntouchedOrTwo(db0, db, q);
      assert Kept(db0, gone, q) == RowsOf(db.rows, q);
      assert forall x | x in db0.rows && x.path == q :: x in RowsOf(db0.rows, q);
    }
  }

  /** The list is done; the path itself and its rows go. */
  lemma FinalStep(db0: Catalog, p: PathId, db: Catalog)
    requires Partial(db0, p, db) && p in db0.paths
    requires forall x | x in db.rows && x.badge == db0.paths[p] :: x.path == p
    ensures WithoutPath(db, p) == Remove(db0, Doomed(db0, {p}))
  {
    var gone := Gone(db0, db) + {p};
    forall q | q in db0.paths
      ensures !Forced(db0, gone, q)
    {
      if q != p {
        NotForcedNow(db0, p, db, q);
      }
    }
    assert Stable(db0, gone);
    DoomedIsLeast(db0, {p});
    assert gone == Doomed(db0, {p});
    FinalCatalog(db0, p, db);
  }

  lemma FinalCatalog(db0: Catalog, p: PathId, db: Catalog)
    requires Partial(db0, p, db) && p in db0.paths
    requires forall x | x in db.rows && x.badge == db0.paths[p] :: x.path == p
    ensures WithoutPath(db, p) == Remove(db0, Gone(db0, db) + {p})
  {
    var gone := Gone(db0, db) + {p};
    assert Parts(db0, gone) == Parts(db0, Gone(db0, db)) + {db0.paths[p]};
    assert WithoutPath(db, p).rows == Remove(db0, gone).rows;
    assert WithoutPath(db, p).paths == Remove(db0, gone).paths;
  }
}
