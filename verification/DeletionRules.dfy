/** Which learning paths must go when one goes, and what the catalogue looks like afterwards, described
    without the deletion that computes it.
 */
module DeletionRules {
  import opened Basics

  type PathId = nat

  /** LearningPathBadge; the key keeps duplicate rows of a path apart. */
  datatype Row = Row(key: nat, path: PathId, badge: BadgeId)

  /** Every existing path with its participation badge, and the rows of all paths. */
  datatype Catalog = Catalog(paths: map<PathId, BadgeId>, rows: set<Row>)

  /** The foreign key from rows to paths. */
  ghost predicate Valid(db: Catalog) {
    forall x | x in db.rows :: x.path in db.paths
  }

  function RowsOf(rows: set<Row>, q: PathId): set<Row> {
    set x | x in rows && x.path == q
  }

  function Parts(db: Catalog, gone: set<PathId>): set<BadgeId> {
    set d | d in gone && d in db.paths :: db.paths[d]
  }

  /** Rows of q that stay when the paths in `gone` are deleted. */
  function Kept(db: Catalog, gone: set<PathId>, q: PathId): set<Row> {
    set x | x in db.rows && x.path == q && x.badge !in Parts(db, gone)
  }

  ghost predicate Hit(db: Catalog, gone: set<PathId>, q: PathId) {
    exists x :: x in db.rows && x.path == q && x.badge in Parts(db, gone)
  }

  /** q loses a row to the deletion of `gone` and is left with fewer than two. */
  ghost predicate Forced(db: Catalog, gone: set<PathId>, q: PathId) {
    q in db.paths && q !in gone && Hit(db, gone, q) && |Kept(db, gone, q)| < 2
  }

  ghost predicate Stable(db: Catalog, gone: set<PathId>) {
    forall q | q in db.paths :: !Forced(db, gone, q)
  }

  ghost function Doomed(db: Catalog, gone: set<PathId>): set<PathId>
    decreases db.paths.Keys - gone
  {
    if Stable(db, gone) then gone
    else
      var q :| q in db.paths && Forced(db, gone, q);
      Doomed(db, gone + {q})
  }

  /** The catalogue without the paths in `gone`, their rows, and all rows for their participation badges. */
  function Remove(db: Catalog, gone: set<PathId>): Catalog {
    Catalog(db.paths - gone, set x | x in db.rows && x.path !in gone && x.badge !in Parts(db, gone))
  }

  lemma ForcedMonotone(db: Catalog, small: set<PathId>, large: set<PathId>, q: PathId)
    requires small <= large && Forced(db, small, q) && q !in large
    ensures Forced(db, large, q)
  {
    assert Parts(db, small) <= Parts(db, large);
    SubsetCardinality(Kept(db, large, q), Kept(db, small, q));
  }

  lemma {:induction false} DoomedIsStable(db: Catalog, gone: set<PathId>)
    ensures gone <= Doomed(db, gone) <= gone + db.paths.Keys
    ensures Stable(db, Doomed(db, gone))
    decreases db.paths.Keys - gone
  {
    if !Stable(db, gone) {
      var q :| q in db.paths && Forced(db, gone, q) && Doomed(db, gone) == Doomed(db, gone + {q});
      DoomedIsStable(db, gone + {q});
    }
  }

  lemma {:induction false} DoomedIsBelow(db: Catalog, gone: set<PathId>, upper: set<PathId>)
    requires gone <= upper && Stable(db, upper)
    ensures Doomed(db, gone) <= upper
    decreases db.paths.Keys - gone
  {
    if !Stable(db, gone) {
      var q :| q in db.paths && Forced(db, gone, q) && Doomed(db, gone) == Doomed(db, gone + {q});
      if q !in upper {
        ForcedMonotone(db, gone, upper, q);
      }
      DoomedIsBelow(db, gone + {q}, upper);
    }
  }

  /** The doomed paths are the least set with the deleted ones in it that forces nothing further. */
  lemma DoomedIsLeast(db: Catalog, gone: set<PathId>)
    ensures gone <= Doomed(db, gone) && Stable(db, Doomed(db, gone))
    ensures forall upper: set<PathId> :: gone <= upper && Stable(db, upper) ==> Doomed(db, gone) <= upper
  {
    DoomedIsStable(db, gone);
    forall upper: set<PathId> | gone <= upper && Stable(db, upper)
      ensures Doomed(db, gone) <= upper
    {
      DoomedIsBelow(db, gone, upper);
    }
  }

  /** A doomed path that was not deleted to begin with is forced out by the others. */
  lemma {:induction false} DoomedIsForced(db: Catalog, gone: set<PathId>, q: PathId)
    requires q in Doomed(db, gone) && q !in gone
    ensures Forced(db, Doomed(db, gone) - {q}, q)
    decreases db.paths.Keys - gone
  {
    if !Stable(db, gone) {
      var f :| f in db.paths && Forced(db, gone, f) && Doomed(db, gone) == Doomed(db, gone + {f});
      if f == q {
        DoomedIsStable(db, gone);
        ForcedMonotone(db, gone, Doomed(db, gone) - {q}, q);
      } else {
        DoomedIsForced(db, gone + {f}, q);
      }
    }
  }

  // ---------- Properties of the final catalogue ----------

  /** Paths outside `gone` stay, with their rows for other badges than the participation badges of `gone`. */
  lemma RemoveExactly(db: Catalog, gone: set<PathId>)
    ensures var last := Remove(db, gone);
            && (forall q :: q in last.paths <==> q in db.paths && q !in gone)
            && (forall q | q in last.paths :: last.paths[q] == db.paths[q])
            && (forall x :: x in last.rows <==>
                  && x in db.rows && x.path !in gone
                  && forall d | d in gone && d in db.paths :: x.badge != db.paths[d])
  {
  }

  lemma RemoveRowsOf(db: Catalog, gone: set<PathId>, q: PathId)
    requires q !in gone
    ensures RowsOf(Remove(db, gone).rows, q) == Kept(db, gone, q)
  {
  }

  /** Every surviving path keeps all of its rows or at least two. */
  lemma SurvivorsUntouchedOrTwo(db: Catalog, gone: set<PathId>, q: PathId)
    requires Stable(db, gone) && q in Remove(db, gone).paths
    ensures RowsOf(Remove(db, gone).rows, q) == RowsOf(db.rows, q) || |RowsOf(Remove(db, gone).rows, q)| >= 2
  {
    RemoveRowsOf(db, gone, q);
    if !Hit(db, gone, q) {
      assert Kept(db, gone, q) == RowsOf(db.rows, q);
    }
  }

  ghost predicate AllHaveTwo(db: Catalog) {
    forall q | q in db.paths :: |RowsOf(db.rows, q)| >= 2
  }

  /** Two badges per path is kept by every deletion, and no row refers to a deleted path or its badge. */
  lemma DeletionKeepsTwo(db: Catalog, p: PathId)
    requires Valid(db) && AllHaveTwo(db)
    ensures AllHaveTwo(Remove(db, Doomed(db, {p}))) && Valid(Remove(db, Doomed(db, {p})))
    ensures forall x, d | x in Remove(db, Doomed(db, {p})).rows && d in Doomed(db, {p}) && d in db.paths ::
              x.badge != db.paths[d]
  {
    DoomedIsLeast(db, {p});
    forall q | q in Remove(db, Doomed(db, {p})).paths
      ensures |RowsOf(Remove(db, Doomed(db, {p})).rows, q)| >= 2
    {
      SurvivorsUntouchedOrTwo(db, Doomed(db, {p}), q);
    }
  }

  /** A path forced out after one round was forced out from the start. */
  lemma ForcedLater(db: Catalog, first: set<PathId>, all: set<PathId>, q: PathId)
    requires Valid(db) && first <= all && Forced(Remove(db, first), all, q)
    ensures Forced(db, all, q)
  {
    var mid := Remove(db, first);
    assert Parts(mid, all) <= Parts(db, all);
    assert Parts(db, all) <= Parts(db, first) + Parts(mid, all);
    assert Kept(mid, all, q) == Kept(db, all, q);
  }

  /** A path forced out by both rounds together is forced out by the first, or then by the second. */
  lemma ForcedSplit(db: Catalog, first: set<PathId>, second: set<PathId>, q: PathId)
    requires Forced(db, first + second, q)
    ensures Forced(db, first, q) || Forced(Remove(db, first), second, q)
  {
    var mid := Remove(db, first);
    assert Parts(db, first + second) == Parts(db, first) + Parts(mid, second);
    assert Kept(mid, second, q) == Kept(db, first + second, q);
    if !Hit(mid, second, q) {
      assert Kept(mid, second, q) == Kept(db, first, q);
      var x :| x in db.rows && x.path == q && x.badge in Parts(db, first + second);
      assert x in mid.rows || x.badge in Parts(db, first);
      assert Hit(db, first, q);
    }
  }

  /** Deleting in two rounds is deleting at once. */
  lemma DoomedCompose(db: Catalog, first: set<PathId>, second: set<PathId>)
    requires Valid(db)
    ensures var mid := Remove(db, Doomed(db, first));
            && Doomed(db, first) + Doomed(mid, second) == Doomed(db, first + second)
            && Remove(mid, Doomed(mid, second)) == Remove(db, Doomed(db, first + second))
  {
    var a := Doomed(db, first);
    var mid := Remove(db, a);
    var b := Doomed(mid, second);
    var both := Doomed(db, first + second);
    DoomedIsLeast(db, first);
    DoomedIsLeast(mid, second);
    DoomedIsLeast(db, first + second);
    assert a <= both;
    forall q | q in mid.paths
      ensures !Forced(mid, both, q)
    {
      if Forced(mid, both, q) {
        ForcedLater(db, a, both, q);
      }
    }
    assert b <= both;
    forall q | q in db.paths
      ensures !Forced(db, a + b, q)
    {
      if Forced(db, a + b, q) {
        ForcedSplit(db, a, b, q);
      }
    }
    assert Stable(db, a + b);
    assert both == a + b;
    assert Parts(db, both) == Parts(db, a) + Parts(mid, b);
    assert Remove(mid, b).rows == Remove(db, both).rows;
    assert Remove(mid, b).paths == Remove(db, both).paths;
  }
}
