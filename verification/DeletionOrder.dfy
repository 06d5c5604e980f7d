/** Whether a deletion can come to a row of a path that it has deleted already, decided on the catalogue before it. */
module DeletionOrder {
  import opened Basics
  import opened DeletionRules

  /** With the roots in it, `gone` forces out nothing but perhaps f, and f is in it only as a root. */
  ghost predicate Sparing(db: Catalog, roots: set<PathId>, gone: set<PathId>, f: PathId) {
    && roots <= gone && f !in gone - roots
    && forall g | g in db.paths && g != f :: !Forced(db, gone, g)
  }

  ghost predicate Closed(db: Catalog, roots: set<PathId>, gone: set<PathId>) {
    roots <= gone && Stable(db, gone)
  }

  /** Deletions that start with r's can reach no path outside `below`, except f. */
  ghost predicate Below(db: Catalog, below: set<PathId>, r: PathId, f: PathId) {
    r in below && forall g | g in db.paths && g != f && Hit(db, below, g) :: g in below
  }

  /** While r is being deleted, the rows for its badge are deleted a second time: for another path with that
      badge, or because r itself loses a row and is forced out again. */
  ghost predicate Twice(db: Catalog, roots: set<PathId>, gone: set<PathId>, below: set<PathId>, r: PathId) {
    && r in db.paths
    && (|| db.paths[r] in Parts(db, gone * below - {r})
        || (&& Hit(db, below - {r}, r)
            && (if r in roots then Forced(db, gone - {r}, r)
                else |RowsOf(db.rows, r)| >= 2 && Kept(db, gone - {r}, r) == {})))
  }

  ghost predicate TwoFor(db: Catalog, r: PathId, f: PathId) {
    exists x, y ::
      && x in db.rows && y in db.rows && x != y && x.path == f && y.path == f
      && r in db.paths && x.badge == db.paths[r] && y.badge == db.paths[r]
  }

  /** f loses every row to `gone`, and one beside the last to r or to what r's deletion reaches. */
  ghost predicate Emptied(db: Catalog, gone: set<PathId>, below: set<PathId>, r: PathId, f: PathId) {
    && |RowsOf(db.rows, f)| >= 2 && Kept(db, gone - {f}, f) == {}
    && (TwoFor(db, r, f) || Hit(db, below - {r}, f))
  }

  ghost predicate Linked(db: Catalog, roots: set<PathId>, r: PathId, f: PathId) {
    && r != f && r in db.paths && f in db.paths && f in Doomed(db, roots)
    && exists y :: y in db.rows && y.path == f && y.badge == db.paths[r]
  }

  /** f contains r's badge and is forced out even if r's deletion comes to f last. */
  ghost predicate Overtaken(db: Catalog, roots: set<PathId>, r: PathId, f: PathId) {
    Linked(db, roots, r, f) && Ahead(db, roots, r, f)
  }

  ghost predicate Ahead(db: Catalog, roots: set<PathId>, r: PathId, f: PathId) {
    forall gone, below | Sparing(db, roots, gone, f) && Below(db, below, r, f) :: AheadBy(db, roots, gone, below, r, f)
  }

  ghost predicate AheadBy(
    db: Catalog, roots: set<PathId>, gone: set<PathId>, below: set<PathId>, r: PathId, f: PathId)
  {
    && r in gone
    && (f in roots ==> Forced(db, gone - {f}, f))
    && (Twice(db, roots, gone, below, r) || Emptied(db, gone, below, r, f))
  }

  /** f is forced out with only rows for r's badge left, and these are deleted twice later on. */
  ghost predicate OvertakenLater(db: Catalog, roots: set<PathId>, r: PathId, f: PathId) {
    && Linked(db, roots, r, f) && f !in roots && |RowsOf(db.rows, f)| >= 2
    && LeftFor(db, roots, r, f) && TwiceInTheEnd(db, roots, r, f)
  }

  ghost predicate LeftFor(db: Catalog, roots: set<PathId>, r: PathId, f: PathId) {
    forall gone | Sparing(db, roots, gone, f) :: Kept(db, gone + {r}, f) == {}
  }

  ghost predicate TwiceInTheEnd(db: Catalog, roots: set<PathId>, r: PathId, f: PathId) {
    forall gone, below | Closed(db, roots, gone) && Below(db, below, r, f) ::
      r in gone && Twice(db, roots, gone, below, r)
  }

  /** No path that goes with the roots is overtaken. */
  ghost predicate Smooth(db: Catalog, roots: set<PathId>) {
    forall r, f :: !Overtaken(db, roots, r, f) && !OvertakenLater(db, roots, r, f)
  }

  /** A path that must go is forced out by every set that spares only it. */
  lemma SparedIsForced(db: Catalog, roots: set<PathId>, gone: set<PathId>, f: PathId)
    requires Sparing(db, roots, gone, f) && f in Doomed(db, roots) && f !in gone
    ensures Forced(db, gone, f)
  {
    if !(f in db.paths && Forced(db, gone, f)) {
      assert Stable(db, gone);
      DoomedIsBelow(db, roots, gone);
    }
  }

  /** The least set that spares f leaves out at most f of the doomed paths. */
  lemma DoomedBut(db: Catalog, roots: set<PathId>, f: PathId)
    ensures Sparing(db, roots, Doomed(db, roots) - ({f} - roots), f)
    ensures Closed(db, roots, Doomed(db, roots))
  {
    var doomed, gone := Doomed(db, roots), Doomed(db, roots) - ({f} - roots);
    DoomedIsStable(db, roots);
    forall g | g in db.paths && g != f
      ensures !Forced(db, gone, g)
    {
      if Forced(db, gone, g) {
        ForcedMonotone(db, gone, doomed, g);
      }
    }
  }

  // ---------- A simple case ----------

  /** Rows of q for the badges of doomed paths. */
  function DoomedRows(db: Catalog, gone: set<PathId>, q: PathId): set<Row> {
    set x | x in db.rows && x.path == q && x.badge in Parts(db, gone)
  }

  /** q keeps a row, or has just one that is doomed. */
  ghost predicate Anchored(db: Catalog, doomed: set<PathId>, q: PathId) {
    Kept(db, doomed, q) == {} ==>
      forall x, y | x in DoomedRows(db, doomed, q) && y in DoomedRows(db, doomed, q) :: x == y
  }

  /** p is not drawn in again: it has no row for a doomed path's badge, or two others. */
  ghost predicate StaysOut(db: Catalog, p: PathId) {
    var doomed := Doomed(db, {p});
    DoomedRows(db, doomed, p) == {} || |Kept(db, doomed, p)| >= 2
  }

  /** Only one other doomed path contains p's badge. */
  ghost predicate OneChild(db: Catalog, p: PathId) {
    forall x, y | x in db.rows && y in db.rows && x.path in Doomed(db, {p}) - {p} && y.path in Doomed(db, {p}) - {p}
                  && p in db.paths && x.badge == db.paths[p] && y.badge == db.paths[p] ::
      x.path == y.path
  }

  /** Doomed paths do not share participation badges; each of them other than p has just one row for such a
      badge, or a row that is not; and p is not drawn in again, or the same holds of it and only one doomed path
      contains its badge. */
  ghost predicate Untangled(db: Catalog, p: PathId) {
    var doomed := Doomed(db, {p});
    && (forall d, e | d in doomed && e in doomed && d in db.paths && e in db.paths && d != e ::
          db.paths[d] != db.paths[e])
    && (forall q | q in doomed && q != p :: Anchored(db, doomed, q))
    && (StaysOut(db, p) || (Anchored(db, doomed, p) && OneChild(db, p)))
  }

  lemma SingleRow(rows: set<Row>)
    requires forall x, y | x in rows && y in rows :: x == y
    ensures |rows| < 2
  {
    if x :| x in rows {
      assert rows == {x};
    }
  }

  lemma AnchoredKeeps(db: Catalog, doomed: set<PathId>, gone: set<PathId>, q: PathId)
    requires Anchored(db, doomed, q) && gone <= doomed && |RowsOf(db.rows, q)| >= 2
    ensures Kept(db, gone, q) != {}
  {
    assert Parts(db, gone) <= Parts(db, doomed);
    if Kept(db, doomed, q) == {} {
      forall x | x in RowsOf(db.rows, q)
        ensures x in DoomedRows(db, doomed, q)
      {
        assert x !in Kept(db, doomed, q);
      }
      SingleRow(RowsOf(db.rows, q));
    } else {
      assert Kept(db, doomed, q) <= Kept(db, gone, q);
    }
  }

  lemma StaysOutUnforced(db: Catalog, p: PathId, gone: set<PathId>)
    requires StaysOut(db, p) && gone <= Doomed(db, {p})
    ensures !Forced(db, gone - {p}, p)
  {
    var doomed := Doomed(db, {p});
    assert Parts(db, gone - {p}) <= Parts(db, doomed);
    if Forced(db, gone - {p}, p) {
      var z :| z in db.rows && z.path == p && z.badge in Parts(db, gone - {p});
      assert z in DoomedRows(db, doomed, p);
      SubsetCardinality(Kept(db, doomed, p), Kept(db, gone - {p}, p));
    }
  }

  lemma Unshared(db: Catalog, p: PathId, gone: set<PathId>, below: set<PathId>, r: PathId)
    requires Untangled(db, p) && gone <= Doomed(db, {p}) && r in Doomed(db, {p}) && r in db.paths
    ensures db.paths[r] !in Parts(db, gone * below - {r})
  {
  }

  lemma UntangledNotTwice(db: Catalog, p: PathId, gone: set<PathId>, below: set<PathId>, r: PathId)
    requires Untangled(db, p) && gone <= Doomed(db, {p}) && r in Doomed(db, {p})
    requires r != p || StaysOut(db, p) || gone == {p}
    ensures !Twice(db, {p}, gone, below, r)
  {
    if r in db.paths {
      Unshared(db, p, gone, below, r);
      if r != p {
        if |RowsOf(db.rows, r)| >= 2 {
          AnchoredKeeps(db, Doomed(db, {p}), gone - {r}, r);
        }
      } else if StaysOut(db, p) {
        StaysOutUnforced(db, p, gone);
      } else {
        assert Parts(db, gone - {p}) == {};
      }
    }
  }

  lemma UntangledNotAhead(db: Catalog, p: PathId, gone: set<PathId>, below: set<PathId>, r: PathId, f: PathId)
    requires Untangled(db, p) && gone <= Doomed(db, {p}) && r in Doomed(db, {p}) && f in Doomed(db, {p})
    requires r != p || StaysOut(db, p) || gone == {p}
    ensures !AheadBy(db, {p}, gone, below, r, f)
  {
    UntangledNotTwice(db, p, gone, below, r);
    if f == p && StaysOut(db, p) {
      StaysOutUnforced(db, p, gone);
    } else if |RowsOf(db.rows, f)| >= 2 {
      AnchoredKeeps(db, Doomed(db, {p}), gone - {f}, f);
    }
  }

  /** What spares f, for the deletion of r: all other doomed paths, or p alone if only f contains its badge. */
  lemma UntangledSparing(db: Catalog, p: PathId, r: PathId, f: PathId) returns (gone: set<PathId>)
    requires Untangled(db, p) && Linked(db, {p}, r, f)
    ensures Sparing(db, {p}, gone, f) && gone <= Doomed(db, {p})
    ensures r != p || StaysOut(db, p) || gone == {p}
  {
    DoomedIsStable(db, {p});
    if r != p || StaysOut(db, p) {
      DoomedBut(db, {p}, f);
      gone := Doomed(db, {p}) - ({f} - {p});
    } else {
      gone := {p};
      forall g | g in db.paths && g != f
        ensures !Forced(db, {p}, g)
      {
        if Forced(db, {p}, g) {
          OnlyChildForced(db, p, f, g);
        }
      }
    }
  }

  lemma OnlyChildForced(db: Catalog, p: PathId, f: PathId, g: PathId)
    requires OneChild(db, p) && Linked(db, {p}, p, f) && Forced(db, {p}, g)
    ensures g == f
  {
    DoomedIsStable(db, {p});
    if g !in Doomed(db, {p}) {
      ForcedMonotone(db, {p}, Doomed(db, {p}), g);
    }
  }

  lemma UntangledSpares(db: Catalog, p: PathId, r: PathId, f: PathId)
    requires Untangled(db, p) && Linked(db, {p}, r, f)
    ensures !Ahead(db, {p}, r, f)
  {
    var gone := UntangledSparing(db, p, r, f);
    var below := db.paths.Keys + {r};
    assert Below(db, below, r, f);
    if r in gone {
      UntangledNotAhead(db, p, gone, below, r, f);
    }
  }

  lemma UntangledSparesLater(db: Catalog, p: PathId, r: PathId, f: PathId)
    requires Untangled(db, p) && Linked(db, {p}, r, f) && f != p && |RowsOf(db.rows, f)| >= 2
    ensures !LeftFor(db, {p}, r, f) || !TwiceInTheEnd(db, {p}, r, f)
  {
    var doomed, below := Doomed(db, {p}), db.paths.Keys + {r};
    DoomedBut(db, {p}, f);
    if r == p {
      AnchoredKeeps(db, doomed, doomed - ({f} - {p}) + {p}, f);
    } else if r in doomed {
      assert Below(db, below, r, f);
      UntangledNotTwice(db, p, doomed, below, r);
    } else {
      assert Below(db, below, r, f) && Closed(db, {p}, doomed);
    }
  }

  lemma UntangledIsSmooth(db: Catalog, p: PathId)
    requires Untangled(db, p)
    ensures Smooth(db, {p})
  {
    forall r, f
      ensures !Overtaken(db, {p}, r, f) && !OvertakenLater(db, {p}, r, f)
    {
      if Linked(db, {p}, r, f) {
        UntangledSpares(db, p, r, f);
        if f != p && |RowsOf(db.rows, f)| >= 2 {
          UntangledSparesLater(db, p, r, f);
        }
      }
    }
  }
}
