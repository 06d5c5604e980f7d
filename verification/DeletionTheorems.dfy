/** What every run of LearningPath.delete comes to, and exactly when no order of rows makes it raise. */
module DeletionTheorems {
  import opened Basics
  import opened DeletionNesting
  import opened DeletionOrder
  import opened DeletionRules
  import opened DeletionRuns

  // ---------- The loop of LearningPath.delete ----------

  /** Some other path has two rows or more, all of them for p's badge. */
  ghost predicate HasSaturated(db: Catalog, p: PathId) {
    exists q :: Saturated(db, p, q)
  }

  ghost predicate Saturated(db: Catalog, p: PathId, q: PathId) {
    && p in db.paths && q in db.paths && q != p && |RowsOf(db.rows, q)| >= 2
    && forall x | x in db.rows && x.path == q :: x.badge == db.paths[p]
  }

  /** With the rows in `todo` still to come. */
  ghost predicate Looping(db0: Catalog, p: PathId, db: Catalog, todo: seq<Row>) {
    && p in db0.paths && Partial(db0, p, db) && Traced(db0, p, db)
    && (forall x | x in todo :: x in db0.rows && x.badge == db0.paths[p] && x.path != p)
    && (forall i, j | 0 <= i < j < |todo| :: todo[i] != todo[j])
    && (forall x | x in db.rows && x.badge == db0.paths[p] && x.path != p :: x in todo)
    && (forall x | x in todo && x !in db.rows && x.path in db.paths :: db0.paths[p] in Parts(db0, Gone(db0, db)))
    && (forall x | x in todo :: x.path in db.paths || Overtaken(db0, {p}, p, x.path))
    && (forall q | Saturated(db0, p, q) :: exists x :: x in todo && x.path == q)
  }

  lemma LoopStart(db0: Catalog, p: PathId, todo: seq<Row>)
    requires Valid(db0) && Listing(db0, p, todo)
    ensures Looping(db0, p, db0, todo)
  {
    forall q | Saturated(db0, p, q)
      ensures exists x :: x in todo && x.path == q
    {
      var x :| x in RowsOf(db0.rows, q);
      assert x in todo;
    }
  }

  lemma SaturatedHasAnother(db0: Catalog, p: PathId, db: Catalog, q: PathId, x: Row) returns (y: Row)
    requires Partial(db0, p, db) && Saturated(db0, p, q) && q in db.paths
    ensures y in db.rows && y.path == q && y != x && y.badge == db0.paths[p]
  {
    assert UntouchedOrTwo(db0, db, q);
    assert RowsOf(db.rows, q) != {x};
    if RowsOf(db.rows, q) <= {x} {
      SubsetCardinality(RowsOf(db.rows, q), {x});
    }
    y :| y in RowsOf(db.rows, q) && y != x;
  }

  /** As long as its path is there, a saturated path has a row left after this one. */
  lemma SaturatedStays(db0: Catalog, p: PathId, db: Catalog, todo: seq<Row>, q: PathId)
    requires Looping(db0, p, db, todo) && |todo| > 0 && todo[0].path in db.paths
    requires Saturated(db0, p, q)
    ensures exists x :: x in todo[1..] && x.path == q
  {
    assert todo == [todo[0]] + todo[1..];
    if q == todo[0].path {
      var y := SaturatedHasAnother(db0, p, db, q, todo[0]);
      assert y in todo;
    }
  }

  lemma LoopRow(db0: Catalog, p: PathId, db: Catalog, todo: seq<Row>)
    requires Looping(db0, p, db, todo) && |todo| > 0
    requires todo[0].path in db.paths && |RowsOf(Without(db, todo[0]).rows, todo[0].path)| >= 2
    ensures Looping(db0, p, Without(db, todo[0]), todo[1..])
  {
    var x := todo[0];
    assert todo == [x] + todo[1..];
    RowStep(db0, p, db, x);
    TracedRow(db0, p, db, x);
    forall q | Saturated(db0, p, q)
      ensures exists x :: x in todo[1..] && x.path == q
    {
      SaturatedStays(db0, p, db, todo, q);
    }
  }

  /** Nothing that p's list still needs is lost by the nested deletion, unless its path is overtaken. */
  lemma PendingStays(db0: Catalog, p: PathId, db: Catalog, todo: seq<Row>)
    requires Looping(db0, p, db, todo) && |todo| > 0 && Nesting(db0, p, db, todo[0])
    ensures var mid := Without(db, todo[0]);
            var next := Remove(mid, Doomed(mid, {todo[0].path}));
            && (forall y | y in todo[1..] && y !in next.rows && y.path in next.paths ::
                  db0.paths[p] in Parts(db0, Gone(db0, next)))
            && (forall y | y in todo[1..] :: y.path in next.paths || Overtaken(db0, {p}, p, y.path))
  {
    var x := todo[0];
    var mid := Without(db, x);
    var more := Doomed(mid, {x.path});
    assert todo == [x] + todo[1..];
    DoomedIsStable(mid, {x.path});
    GoneAfter(db0, db, mid, more);
    assert Parts(db0, Gone(db0, db)) <= Parts(db0, Gone(db0, Remove(mid, more)));
    assert Parts(mid, more) <= Parts(db0, Gone(db0, Remove(mid, more)));
    forall y | y in todo[1..]
      ensures (y.path in db.paths && y.path !in more) || Overtaken(db0, {p}, p, y.path)
    {
      if y.path in db.paths && y.path in more {
        Overtakes(db0, p, db, x, y);
      }
    }
  }

  lemma LoopPath(db0: Catalog, p: PathId, db: Catalog, todo: seq<Row>)
    requires Looping(db0, p, db, todo) && |todo| > 0
    requires todo[0].path in db.paths && |RowsOf(Without(db, todo[0]).rows, todo[0].path)| < 2
    ensures var mid := Without(db, todo[0]);
            && Looping(db0, p, Remove(mid, Doomed(mid, {todo[0].path})), todo[1..])
            && (Smooth(db0, {p}) ==> Smooth(mid, {todo[0].path}))
            && todo[0].path in Doomed(db0, {p}) && Contained(db0, p, mid)
            && Valid(mid) && mid.rows < db0.rows
  {
    var x := todo[0];
    assert todo == [x] + todo[1..];
    PathStep(db0, p, db, x);
    TracedPath(db0, p, db, x);
    PendingStays(db0, p, db, todo);
    ContainedWithout(db0, p, db, x);
    ShortPathIsDoomed(db0, p, Without(db, x), x);
    if Smooth(db0, {p}) {
      SmoothNested(db0, p, db, x);
    }
    forall q | Saturated(db0, p, q)
      ensures exists x :: x in todo[1..] && x.path == q
    {
      SaturatedStays(db0, p, db, todo, q);
    }
  }

  // ---------- What every run comes to ----------

  /** On completion exactly the doomed paths are gone; otherwise nothing beyond them was touched; it completes
      from every smooth catalogue, and never with a saturated path. */
  ghost predicate Exact(db: Catalog, p: PathId, outcome: Outcome, last: Catalog) {
    && (outcome == Done || outcome == DoesNotExist)
    && (outcome == Done ==> last == Remove(db, Doomed(db, {p})))
    && (outcome == DoesNotExist ==> Contained(db, p, last))
    && (Smooth(db, {p}) ==> outcome == Done)
    && (HasSaturated(db, p) ==> outcome == DoesNotExist)
  }

  lemma {:induction false} RunExactly(db: Catalog, p: PathId, outcome: Outcome, last: Catalog)
    requires Valid(db) && Run(db, p, outcome, last)
    ensures Exact(db, p, outcome, last)
    decreases db.rows, 1, 0
  {
    var list :| Listing(db, p, list) && Loop(db.rows, p, db, list, outcome, last);
    LoopStart(db, p, list);
    LoopExactly(db, p, db, list, outcome, last);
  }

  lemma {:induction false} LoopExactly(
    db0: Catalog, p: PathId, db: Catalog, todo: seq<Row>, outcome: Outcome, last: Catalog)
    requires Looping(db0, p, db, todo) && Loop(db0.rows, p, db, todo, outcome, last)
    ensures Exact(db0, p, outcome, last)
    decreases db0.rows, 0, |todo|
  {
    if todo == [] {
      FinalStep(db0, p, db);
    } else {
      var x, q, mid := todo[0], todo[0].path, Without(db, todo[0]);
      if q !in mid.paths {
        ContainedWithout(db0, p, db, x);
      } else if |RowsOf(mid.rows, q)| >= 2 {
        LoopRow(db0, p, db, todo);
        LoopExactly(db0, p, mid, todo[1..], outcome, last);
      } else {
        var inner, next :|
          && Run(mid, q, inner, next)
          && (if inner.Done? then Loop(db0.rows, p, next, todo[1..], outcome, last)
              else outcome == inner && last == next);
        LoopPath(db0, p, db, todo);
        RunExactly(mid, q, inner, next);
        if inner.Done? {
          LoopExactly(db0, p, next, todo[1..], outcome, last);
        } else {
          ContainedCompose(db0, p, mid, q, next);
        }
      }
    }
  }

  // ---------- The loop as a refinement of the relation ----------

  /** Before the i-th row of the list: however the rest of it ends, so can the whole. */
  ghost predicate Refines(db0: Catalog, p: PathId, list: seq<Row>, db: Catalog, i: nat) {
    && Valid(db) && db.rows <= db0.rows && (if i == 0 then db == db0 else db.rows < db0.rows)
    && Listing(db0, p, list) && i <= |list|
    && forall outcome, last ::
         Loop(db0.rows, p, db, list[i..], outcome, last) ==> Loop(db0.rows, p, db0, list, outcome, last)
  }

  lemma RefinesStart(db0: Catalog, p: PathId, list: seq<Row>)
    requires Valid(db0) && Listing(db0, p, list)
    ensures Refines(db0, p, list, db0, 0)
  {
    assert list[0..] == list;
  }

  lemma RefinesRow(db0: Catalog, p: PathId, list: seq<Row>, db: Catalog, i: nat)
    requires Refines(db0, p, list, db, i) && i < |list| && list[i].path in db.paths
    requires |RowsOf(Without(db, list[i]).rows, list[i].path)| >= 2
    ensures Refines(db0, p, list, Without(db, list[i]), i + 1)
  {
    SuffixStep(list, i);
    assert list[i] in list;
  }

  lemma RefinesGone(db0: Catalog, p: PathId, list: seq<Row>, db: Catalog, i: nat)
    requires Refines(db0, p, list, db, i) && i < |list| && list[i].path !in db.paths
    ensures Run(db0, p, DoesNotExist, Without(db, list[i]))
  {
    SuffixStep(list, i);
    assert Loop(db0.rows, p, db, list[i..], DoesNotExist, Without(db, list[i]));
  }

  lemma RefinesNested(db0: Catalog, p: PathId, list: seq<Row>, db: Catalog, i: nat)
    requires Refines(db0, p, list, db, i) && i < |list|
    ensures Valid(Without(db, list[i])) && Without(db, list[i]).rows < db0.rows
  {
    assert list[i] in list;
  }

  lemma RefinesPath(
    db0: Catalog, p: PathId, list: seq<Row>, db: Catalog, i: nat, inner: Outcome, next: Catalog)
    requires Refines(db0, p, list, db, i) && i < |list| && list[i].path in db.paths
    requires |RowsOf(Without(db, list[i]).rows, list[i].path)| < 2
    requires Run(Without(db, list[i]), list[i].path, inner, next)
    ensures if inner == Done then Refines(db0, p, list, next, i + 1) else Run(db0, p, inner, next)
  {
    SuffixStep(list, i);
    RefinesNested(db0, p, list, db, i);
    RunExactly(Without(db, list[i]), list[i].path, inner, next);
    if inner != Done {
      assert Loop(db0.rows, p, db, list[i..], inner, next);
    }
  }

  lemma RefinesDone(db0: Catalog, p: PathId, list: seq<Row>, db: Catalog)
    requires Refines(db0, p, list, db, |list|)
    ensures Run(db0, p, Done, WithoutPath(db, p))
  {
    assert Loop(db0.rows, p, db, [], Done, WithoutPath(db, p));
  }

  // ---------- Runs exist, and some of them raise ----------

  lemma Enumeration(rows: set<Row>) returns (list: seq<Row>)
    ensures forall x :: x in list <==> x in rows
    ensures forall i, j | 0 <= i < j < |list| :: list[i] != list[j]
  {
    if rows == {} {
      list := [];
    } else {
      var x :| x in rows;
      list := Enumeration(rows - {x});
      list := list + [x];
    }
  }

  lemma {:induction false} RunExists(db: Catalog, p: PathId)
    requires Valid(db) && p in db.paths
    ensures exists outcome, last :: Run(db, p, outcome, last)
    decreases db.rows, 1, 0
  {
    var list := Enumeration(set x | x in db.rows && x.badge == db.paths[p] && x.path != p);
    assert Listing(db, p, list);
    LoopStart(db, p, list);
    var outcome, last := LoopExists(db, p, db, list);
    assert Run(db, p, outcome, last);
  }

  lemma {:induction false} LoopExists(db0: Catalog, p: PathId, db: Catalog, todo: seq<Row>)
    returns (outcome: Outcome, last: Catalog)
    requires Looping(db0, p, db, todo)
    ensures Loop(db0.rows, p, db, todo, outcome, last)
    decreases db0.rows, 0, |todo|
  {
    if todo == [] {
      outcome, last := Done, WithoutPath(db, p);
    } else {
      var q, mid := todo[0].path, Without(db, todo[0]);
      if q !in mid.paths {
        outcome, last := DoesNotExist, mid;
      } else if |RowsOf(mid.rows, q)| >= 2 {
        LoopRow(db0, p, db, todo);
        outcome, last := LoopExists(db0, p, mid, todo[1..]);
      } else {
        LoopPath(db0, p, db, todo);
        RunExists(mid, q);
        var inner, next :| Run(mid, q, inner, next);
        RunExactly(mid, q, inner, next);
        outcome, last := inner, next;
        if inner.Done? {
          outcome, last := LoopExists(db0, p, next, todo[1..]);
        }
      }
    }
  }

  /** When only rows on f are left in the list, everything but f that must go is gone. */
  lemma OnlySpared(db0: Catalog, p: PathId, db: Catalog, y: Row)
    requires Looping(db0, p, db, [y]) && y.path in db.paths
    ensures Sparing(db0, {p}, Gone(db0, db) + {p}, y.path)
  {
    forall g | g in db0.paths && g != y.path
      ensures !Forced(db0, Gone(db0, db) + {p}, g)
    {
      if g != p {
        NotForcedNow(db0, p, db, g);
      }
    }
  }

  /** Whoever is overtaken is gone when its row comes last. */
  lemma LastIsGone(db0: Catalog, p: PathId, db: Catalog, y: Row)
    requires Looping(db0, p, db, [y]) && Overtaken(db0, {p}, p, y.path)
    ensures y.path !in db.paths
  {
    var f, gone := y.path, Gone(db0, db) + {p};
    if f in db.paths {
      assert UntouchedOrTwo(db0, db, f);
      assert y in [y];
      OnlySpared(db0, p, db, y);
      assert gone - {f} == gone && Below(db0, db0.paths.Keys, p, f);
      assert AheadBy(db0, {p}, gone, db0.paths.Keys, p, f);
      if Twice(db0, {p}, gone, db0.paths.Keys, p) {
        BadgeIsGone(db0, p, db, db0.paths.Keys);
        SparedIsForced(db0, {p}, gone, f);
        SparedIsShort(db0, p, db, f, gone);
      } else {
        OnlyLastRow(db0, p, db, y, gone);
      }
    }
  }

  lemma SparedIsShort(db0: Catalog, p: PathId, db: Catalog, f: PathId, gone: set<PathId>)
    requires Partial(db0, p, db) && p in db0.paths && db0.paths[p] in Parts(db0, Gone(db0, db))
    requires gone == Gone(db0, db) + {p} && Forced(db0, gone, f)
    ensures |RowsOf(db.rows, f)| < 2 && RowsOf(db.rows, f) != RowsOf(db0.rows, f)
  {
    assert Parts(db0, gone) == Parts(db0, Gone(db0, db));
    assert RowsOf(db.rows, f) <= Kept(db0, gone, f);
    SubsetCardinality(RowsOf(db.rows, f), Kept(db0, gone, f));
    var z :| z in db0.rows && z.path == f && z.badge in Parts(db0, gone);
    assert z in RowsOf(db0.rows, f);
  }

  /** A badge that is deleted twice has no rows left by now. */
  lemma BadgeIsGone(db0: Catalog, p: PathId, db: Catalog, below: set<PathId>)
    requires Partial(db0, p, db) && p in db0.paths && Twice(db0, {p}, Gone(db0, db) + {p}, below, p)
    ensures db0.paths[p] in Parts(db0, Gone(db0, db))
  {
    var gone := Gone(db0, db);
    if p in db.paths {
      assert gone + {p} - {p} == gone;
      if Forced(db0, gone, p) {
        assert UntouchedOrTwo(db0, db, p);
        assert RowsOf(db.rows, p) <= Kept(db0, gone, p);
        SubsetCardinality(RowsOf(db.rows, p), Kept(db0, gone, p));
        var z :| z in db0.rows && z.path == p && z.badge in Parts(db0, gone);
        assert z in RowsOf(db0.rows, p);
      }
    }
  }

  lemma OnlyLastRow(db0: Catalog, p: PathId, db: Catalog, y: Row, gone: set<PathId>)
    requires Looping(db0, p, db, [y]) && gone == Gone(db0, db) + {p}
    requires |RowsOf(db0.rows, y.path)| >= 2 && Kept(db0, gone, y.path) == {}
    ensures |RowsOf(db.rows, y.path)| < 2 && RowsOf(db.rows, y.path) != RowsOf(db0.rows, y.path)
  {
    assert Parts(db0, gone) == Parts(db0, Gone(db0, db)) + {db0.paths[p]};
    forall x | x in RowsOf(db.rows, y.path)
      ensures x == y
    {
      assert x !in Kept(db0, gone, y.path);
      assert x in [y];
    }
    SingleRow(RowsOf(db.rows, y.path));
  }

  lemma {:induction false} LoopRaises(
    db0: Catalog, p: PathId, db: Catalog, todo: seq<Row>, outcome: Outcome, last: Catalog)
    requires Looping(db0, p, db, todo) && Loop(db0.rows, p, db, todo, outcome, last)
    requires |todo| > 0 && Overtaken(db0, {p}, p, todo[|todo| - 1].path)
    ensures outcome == DoesNotExist
    decreases |todo|
  {
    var x, q, mid := todo[0], todo[0].path, Without(db, todo[0]);
    if |todo| == 1 {
      assert todo == [x];
      LastIsGone(db0, p, db, x);
    } else if q in mid.paths {
      if |RowsOf(mid.rows, q)| >= 2 {
        LoopRow(db0, p, db, todo);
        LoopRaises(db0, p, mid, todo[1..], outcome, last);
      } else {
        var inner, next :|
          && Run(mid, q, inner, next)
          && (if inner.Done? then Loop(db0.rows, p, next, todo[1..], outcome, last)
              else outcome == inner && last == next);
        LoopPath(db0, p, db, todo);
        RunExactly(mid, q, inner, next);
        if inner.Done? {
          LoopRaises(db0, p, next, todo[1..], outcome, last);
        }
      }
    }
  }

  ghost predicate Completes(db: Catalog, p: PathId) {
    forall outcome, last | Run(db, p, outcome, last) :: outcome == Done
  }

  /** Where p overtakes some path, the order in which a row of that path comes last raises. */
  lemma OvertakenRaises(db: Catalog, p: PathId, f: PathId)
    requires Valid(db) && p in db.paths && Overtaken(db, {p}, p, f)
    ensures exists last :: Run(db, p, DoesNotExist, last)
  {
    var y :| y in db.rows && y.path == f && y.badge == db.paths[p];
    var list := Enumeration((set x | x in db.rows && x.badge == db.paths[p] && x.path != p) - {y});
    list := list + [y];
    assert Listing(db, p, list);
    LoopStart(db, p, list);
    var outcome, last := LoopExists(db, p, db, list);
    LoopRaises(db, p, db, list, outcome, last);
    assert Run(db, p, DoesNotExist, last);
  }

  /** Exactly when p is deleted without error whatever the order of rows: when nothing is overtaken; given that
      p overtakes some path if any path does. */
  lemma CompletesExactly(db: Catalog, p: PathId)
    requires Valid(db) && p in db.paths
    requires Smooth(db, {p}) || exists f :: Overtaken(db, {p}, p, f)
    ensures Completes(db, p) <==> Smooth(db, {p})
  {
    if Smooth(db, {p}) {
      forall outcome, last | Run(db, p, outcome, last)
        ensures outcome == Done
      {
        RunExactly(db, p, outcome, last);
      }
    } else {
      var f :| Overtaken(db, {p}, p, f);
      OvertakenRaises(db, p, f);
    }
  }

  /** No doomed path contains the participation badge of a doomed path other than p, or shares one with it. */
  ghost predicate Direct(db: Catalog, p: PathId) {
    var doomed := Doomed(db, {p});
    && p in db.paths
    && (forall d, e | d in doomed && e in doomed && d in db.paths && e in db.paths && d != e ::
          db.paths[d] != db.paths[e])
    && (forall x | x in db.rows && x.path in doomed && x.badge in Parts(db, doomed) ::
          x.badge == db.paths[p] && x.path != p)
  }

  lemma UnsaturatedIsUntangled(db: Catalog, p: PathId)
    requires Direct(db, p) && !HasSaturated(db, p)
    ensures Untangled(db, p)
  {
    var doomed := Doomed(db, {p});
    DoomedIsStable(db, {p});
    assert DoomedRows(db, doomed, p) == {};
    forall q | q in doomed && q != p && Kept(db, doomed, q) == {}
      ensures |RowsOf(db.rows, q)| < 2
    {
      forall x | x in db.rows && x.path == q
        ensures x.badge == db.paths[p]
      {
        assert x !in Kept(db, doomed, q);
      }
      assert !Saturated(db, p, q);
    }
    forall q | q in doomed && q != p
      ensures Anchored(db, doomed, q)
    {
      forall x, y | x in DoomedRows(db, doomed, q) && y in DoomedRows(db, doomed, q) && Kept(db, doomed, q) == {}
        ensures x == y
      {
        if x != y {
          TwoRows(RowsOf(db.rows, q), x, y);
        }
      }
    }
  }

  /** Then it is deleted without error, whatever the order, exactly when no path has two rows or more and all of
      them for p's badge; and if one has, it always raises. */
  lemma DirectCompletesExactly(db: Catalog, p: PathId)
    requires Valid(db) && Direct(db, p)
    ensures Completes(db, p) <==> !HasSaturated(db, p)
    ensures (exists last :: Run(db, p, Done, last)) <==> !HasSaturated(db, p)
  {
    RunExists(db, p);
    var some, end :| Run(db, p, some, end);
    if !HasSaturated(db, p) {
      UnsaturatedIsUntangled(db, p);
      UntangledIsSmooth(db, p);
    }
    forall outcome, last | Run(db, p, outcome, last)
      ensures outcome == (if HasSaturated(db, p) then DoesNotExist else Done)
    {
      RunExactly(db, p, outcome, last);
    }
  }

  /** If the first nested deletion can raise, so can the whole. */
  lemma NestedRaises(db: Catalog, p: PathId, x: Row, last: Catalog)
    requires Valid(db) && p in db.paths && x in db.rows && x.badge == db.paths[p] && x.path != p
    requires |RowsOf(Without(db, x).rows, x.path)| < 2
    requires Run(Without(db, x), x.path, DoesNotExist, last)
    ensures Run(db, p, DoesNotExist, last)
  {
    var list := Enumeration((set y | y in db.rows && y.badge == db.paths[p] && y.path != p) - {x});
    list := [x] + list;
    assert Listing(db, p, list);
    assert Loop(db.rows, p, db, list, DoesNotExist, last);
  }

  // ---------- Exactly which deletions can raise ----------

  /** Some order of rows comes to the deletion of q in the catalogue `mid`, nested or at the start. */
  ghost predicate Reaches(db: Catalog, p: PathId, mid: Catalog, q: PathId)
    decreases db.rows, 1, 0
  {
    || (mid == db && q == p)
    || exists list :: Listing(db, p, list) && LoopReaches(db.rows, p, db, list, mid, q)
  }

  ghost predicate LoopReaches(start: set<Row>, p: PathId, db: Catalog, todo: seq<Row>, mid: Catalog, q: PathId)
    decreases start, 0, |todo|
  {
    todo != []
    && var next, f := Without(db, todo[0]), todo[0].path;
       if f !in next.paths then false
       else if |RowsOf(next.rows, f)| >= 2 then LoopReaches(start, p, next, todo[1..], mid, q)
       else
         && next.rows < start
         && (|| Reaches(next, f, mid, q)
             || exists after :: Run(next, f, Done, after) && LoopReaches(start, p, after, todo[1..], mid, q))
  }

  ghost predicate ReachesOvertaken(db: Catalog, p: PathId) {
    exists mid, q, f :: Reaches(db, p, mid, q) && Overtaken(mid, {q}, q, f)
  }

  ghost predicate LoopReachesOvertaken(start: set<Row>, p: PathId, db: Catalog, todo: seq<Row>) {
    exists mid, q, f :: LoopReaches(start, p, db, todo, mid, q) && Overtaken(mid, {q}, q, f)
  }

  lemma {:induction false} RaisingReaches(db: Catalog, p: PathId, last: Catalog)
    requires Valid(db) && Run(db, p, DoesNotExist, last)
    ensures ReachesOvertaken(db, p)
    decreases db.rows, 1, 0
  {
    var list :| Listing(db, p, list) && Loop(db.rows, p, db, list, DoesNotExist, last);
    LoopStart(db, p, list);
    LoopRaisingReaches(db, p, db, list, last);
    if f :| Overtaken(db, {p}, p, f) {
      assert Reaches(db, p, db, p);
    } else {
      var mid, q, f :| LoopReaches(db.rows, p, db, list, mid, q) && Overtaken(mid, {q}, q, f);
      assert Reaches(db, p, mid, q);
    }
  }

  lemma {:induction false} LoopRaisingReaches(db0: Catalog, p: PathId, db: Catalog, todo: seq<Row>, last: Catalog)
    requires Looping(db0, p, db, todo) && Loop(db0.rows, p, db, todo, DoesNotExist, last)
    ensures (exists f :: Overtaken(db0, {p}, p, f)) || LoopReachesOvertaken(db0.rows, p, db, todo)
    decreases db0.rows, 0, |todo|
  {
    var x, q, next := todo[0], todo[0].path, Without(db, todo[0]);
    if q !in next.paths {
      assert Overtaken(db0, {p}, p, q);
    } else if |RowsOf(next.rows, q)| >= 2 {
      LoopRow(db0, p, db, todo);
      LoopRaisingReaches(db0, p, next, todo[1..], last);
      if mid, r, f :| LoopReaches(db0.rows, p, next, todo[1..], mid, r) && Overtaken(mid, {r}, r, f) {
        assert LoopReaches(db0.rows, p, db, todo, mid, r);
      }
    } else {
      LoopNestedReaches(db0, p, db, todo, last);
    }
  }

  lemma {:induction false} LoopNestedReaches(db0: Catalog, p: PathId, db: Catalog, todo: seq<Row>, last: Catalog)
    requires Looping(db0, p, db, todo) && Loop(db0.rows, p, db, todo, DoesNotExist, last) && |todo| > 0
    requires todo[0].path in db.paths && |RowsOf(Without(db, todo[0]).rows, todo[0].path)| < 2
    ensures (exists f :: Overtaken(db0, {p}, p, f)) || LoopReachesOvertaken(db0.rows, p, db, todo)
    decreases db0.rows, 0, |todo|, 0
  {
    var q, next := todo[0].path, Without(db, todo[0]);
    var inner, after :|
      && Run(next, q, inner, after)
      && (if inner.Done? then Loop(db0.rows, p, after, todo[1..], DoesNotExist, last)
          else DoesNotExist == inner && last == after);
    LoopPath(db0, p, db, todo);
    if inner.Done? {
      RunExactly(next, q, inner, after);
      LoopRaisingReaches(db0, p, after, todo[1..], last);
      if mid, r, f :| LoopReaches(db0.rows, p, after, todo[1..], mid, r) && Overtaken(mid, {r}, r, f) {
        assert LoopReaches(db0.rows, p, db, todo, mid, r);
      }
    } else {
      RaisingReaches(next, q, after);
      var mid, r, f :| Reaches(next, q, mid, r) && Overtaken(mid, {r}, r, f);
      assert LoopReaches(db0.rows, p, db, todo, mid, r);
    }
  }

  lemma {:induction false} ReachedRaises(db: Catalog, p: PathId, mid: Catalog, q: PathId, f: PathId)
    requires Valid(db) && p in db.paths && Reaches(db, p, mid, q) && Overtaken(mid, {q}, q, f)
    ensures exists last :: Run(db, p, DoesNotExist, last)
    decreases db.rows, 1, 0
  {
    if mid == db && q == p {
      OvertakenRaises(db, p, f);
    } else {
      var list :| Listing(db, p, list) && LoopReaches(db.rows, p, db, list, mid, q);
      var last := LoopReachedRaises(db.rows, p, db, list, mid, q, f);
      assert Run(db, p, DoesNotExist, last);
    }
  }

  lemma {:induction false} LoopReachedRaises(
    start: set<Row>, p: PathId, db: Catalog, todo: seq<Row>, mid: Catalog, q: PathId, f: PathId)
    returns (last: Catalog)
    requires Valid(db) && LoopReaches(start, p, db, todo, mid, q) && Overtaken(mid, {q}, q, f)
    ensures Loop(start, p, db, todo, DoesNotExist, last)
    decreases start, 0, |todo|
  {
    var next, g := Without(db, todo[0]), todo[0].path;
    if |RowsOf(next.rows, g)| >= 2 {
      last := LoopReachedRaises(start, p, next, todo[1..], mid, q, f);
    } else if Reaches(next, g, mid, q) {
      ReachedRaises(next, g, mid, q, f);
      last :| Run(next, g, DoesNotExist, last);
    } else {
      var after :| Run(next, g, Done, after) && LoopReaches(start, p, after, todo[1..], mid, q);
      RunExactly(next, g, Done, after);
      last := LoopReachedRaises(start, p, after, todo[1..], mid, q, f);
    }
  }

  /** For every catalogue: some order raises exactly when some order comes to a deletion, nested or the one
      requested, that overtakes a path. */
  lemma RaisesExactly(db: Catalog, p: PathId)
    requires Valid(db) && p in db.paths
    ensures (exists last :: Run(db, p, DoesNotExist, last)) <==> ReachesOvertaken(db, p)
    ensures Completes(db, p) <==> !ReachesOvertaken(db, p)
  {
    if last :| Run(db, p, DoesNotExist, last) {
      RaisingReaches(db, p, last);
    }
    if mid, q, f :| Reaches(db, p, mid, q) && Overtaken(mid, {q}, q, f) {
      ReachedRaises(db, p, mid, q, f);
    }
    forall outcome, last | Run(db, p, outcome, last)
      ensures outcome == Done || outcome == DoesNotExist
    {
      RunExactly(db, p, outcome, last);
    }
  }
}
