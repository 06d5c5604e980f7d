/** The path and badge tables, and the methods that delete from them. */
module PathDeletion {
  import opened BadgeDeletion
  import opened Basics
  import opened DeletionNesting
  import opened DeletionOrder
  import opened DeletionRules
  import opened DeletionRuns
  import opened DeletionTheorems

  class CatalogStore {
    var paths: map<PathId, BadgeId>
    var rows: set<Row>

    constructor (db: Catalog)
      ensures Db() == db
    {
      paths := db.paths;
      rows := db.rows;
    }

    function Db(): Catalog
      reads this
    {
      Catalog(paths, rows)
    }

    /** The rows for a badge outside a path, in an order that is the database's choice. */
    method RowsFor(badge: BadgeId, except: set<PathId>) returns (found: seq<Row>)
      ensures forall x :: x in found <==> x in rows && x.badge == badge && x.path !in except
      ensures forall i, j | 0 <= i < j < |found| :: found[i] != found[j]
    {
      found := [];
      var left := set x | x in rows && x.badge == badge && x.path !in except;
      ghost var all := left;
      while left != {}
        invariant left <= all
        invariant forall x :: x in found <==> x in all && x !in left
        invariant forall i, j | 0 <= i < j < |found| :: found[i] != found[j]
        decreases left
      {
        var x :| x in left;
        found := found + [x];
        left := left - {x};
      }
    }

    /** LearningPath.delete, on a path that was loaded from the table. */
    method DeletePath(p: PathId) returns (outcome: Outcome)
      requires Valid(Db()) && p in paths
      modifies this
      ensures Run(old(Db()), p, outcome, Db())
      ensures outcome == Done || outcome == DoesNotExist
      ensures outcome == Done ==> Db() == Remove(old(Db()), Doomed(old(Db()), {p}))
      ensures outcome == DoesNotExist ==> Contained(old(Db()), p, Db())
      ensures Smooth(old(Db()), {p}) ==> outcome == Done
      ensures HasSaturated(old(Db()), p) ==> outcome == DoesNotExist
      decreases rows, 1
    {
      ghost var db0 := Db();
      var affected := RowsFor(paths[p], {p});
      outcome := DeleteAffected(p, affected);
      if outcome == Done {
        RefinesDone(db0, p, affected, Db());
        paths := paths - {p};
        rows := rows - RowsOf(rows, p);
      }
      RunExactly(db0, p, outcome, Db());
    }

    /** The loop of LearningPath.delete over the rows for its participation badge. */
    method DeleteAffected(p: PathId, affected: seq<Row>) returns (outcome: Outcome)
      requires Valid(Db()) && Listing(Db(), p, affected)
      modifies this
      ensures if outcome == Done then Refines(old(Db()), p, affected, Db(), |affected|)
              else Run(old(Db()), p, outcome, Db())
      decreases rows, 0
    {
      ghost var db0 := Db();
      RefinesStart(db0, p, affected);
      outcome := Done;
      var i := 0;
      while i < |affected| && outcome == Done
        invariant i <= |affected|
        invariant if outcome == Done then Refines(db0, p, affected, Db(), i) else Run(db0, p, outcome, Db())
      {
        var x := affected[i];
        ghost var db := Db();
        RefinesNested(db0, p, affected, db, i);
        rows := rows - {x};
        if x.path !in paths {
          outcome := DoesNotExist;
          RefinesGone(db0, p, affected, db, i);
        } else if |RowsOf(rows, x.path)| < 2 {
          outcome := DeletePath(x.path);
          RefinesPath(db0, p, affected, db, i, outcome, Db());
        } else {
          RefinesRow(db0, p, affected, db, i);
        }
        i := i + 1;
      }
    }

    /** BadgeClass.delete; `inUse` says whether unrevoked, unexpired assertions of b exist. */
    method DeleteBadge(b: BadgeId, inUse: bool) returns (outcome: Outcome)
      requires Valid(Db())
      modifies this
      ensures outcome == Protected <==> inUse
      ensures outcome == Protected ==> Db() == old(Db())
      ensures outcome == Done ==>
                Valid(Db()) && (forall q | q in paths :: paths[q] != b) && forall x | x in rows :: x.badge != b
      ensures outcome == Done ==> exists roots :: DeletedWith(old(Db()), b, roots, Db())
      ensures outcome == Done && Clean(old(Db()), b) ==> DeletedWith(old(Db()), b, Small(old(Db()), b), Db())
      ensures outcome == DoesNotExist ==> BadgeContained(old(Db()), b, Db())
      ensures !inUse && HasDoubledBadge(old(Db()), b) ==> outcome == DoesNotExist
      ensures !inUse && Clean(old(Db()), b) && !HasDoubledBadge(old(Db()), b) && Smooth(old(Db()), Small(old(Db()), b))
              ==> outcome == Done
    {
      if inUse {
        return Protected;
      }
      ghost var db0 := Db();
      var found := RowsFor(b, {});
      ghost var roots: set<PathId> := {};
      BadgeLoopStart(db0, b, found);
      for i := 0 to |found|
        invariant BadgeLooping(db0, b, roots, Db(), found[i..])
      {
        var lp := found[i].path;
        ghost var db, todo := Db(), found[i..];
        SuffixStep(found, i);
        assert lp in Containing(db0, b);
        AfterRootsIsContained(db0, b, roots);
        if lp !in paths {
          return DoesNotExist;
        }
        if |RowsOf(rows, lp)| <= 2 {
          if Clean(db0, b) && Smooth(db0, Small(db0, b)) {
            BadgeLoopSmooth(db0, b, roots, db, todo);
          }
          outcome := DeletePath(lp);
          if outcome == DoesNotExist {
            AbandonedIsContained(db0, b, roots, lp, Db());
            return;
          }
          BadgeLoopDelete(db0, b, roots, db, todo);
          roots := roots + {lp};
        } else {
          BadgeLoopKeep(db0, b, roots, db, todo);
        }
      }
      BadgeLoopDone(db0, b, roots, Db());
      ghost var last := WithoutBadge(Db(), b);
      var owners := set q | q in paths && paths[q] == b;
      paths := paths - owners;
      rows := set x | x in rows && x.badge != b && x.path !in owners;
      assert Db() == last;
      outcome := Done;
    }
  }
}
