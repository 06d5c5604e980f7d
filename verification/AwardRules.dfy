/** Learning paths as threshold rules over the set of badge classes a recipient holds, and the set that
    awarding badges must lead to, described without the cascade that computes it.
 */
module AwardRules {
  import opened Basics

  /** A path with its badge rows; the same badge class may occur in several rows. */
  datatype LearningPath = LearningPath(
    badges: seq<BadgeId>,
    participation: BadgeId,
    required: nat,
    activated: bool,
    archived: bool)

  predicate Active(p: LearningPath) {
    p.activated && !p.archived
  }

  function Rows(p: LearningPath): set<BadgeId> {
    set b | b in p.badges
  }

  predicate Completed(p: LearningPath, held: set<BadgeId>) {
    |Rows(p) * held| >= p.required
  }

  /** Completed, but the participation badge is missing. */
  predicate Wanting(p: LearningPath, held: set<BadgeId>) {
    Completed(p, held) && p.participation !in held
  }

  predicate Due(p: LearningPath, held: set<BadgeId>) {
    Active(p) && Wanting(p, held)
  }

  ghost predicate Closed(paths: seq<LearningPath>, held: set<BadgeId>) {
    forall p | p in paths :: !Due(p, held)
  }

  function Participations(paths: seq<LearningPath>): set<BadgeId> {
    set p | p in paths :: p.participation
  }

  /** The path contains a badge that was awarded, or that came in since `before`. */
  ghost predicate Touched(p: LearningPath, before: set<BadgeId>, awarded: set<BadgeId>, held: set<BadgeId>) {
    exists b :: b in Rows(p) && (b in awarded || (b in held && b !in before))
  }

  /** No touched path is left due. Paths that nothing new touches are not looked at. */
  ghost predicate Settled(paths: seq<LearningPath>, before: set<BadgeId>, awarded: set<BadgeId>, held: set<BadgeId>) {
    forall p | p in paths && Touched(p, before, awarded, held) :: !Due(p, held)
  }

  /** Fire any due touched path, over and over, in no particular order. */
  ghost function Grow(paths: seq<LearningPath>, before: set<BadgeId>, awarded: set<BadgeId>, held: set<BadgeId>)
    : set<BadgeId>
    decreases Participations(paths) - held
  {
    if Settled(paths, before, awarded, held) then
      held
    else
      var p :| p in paths && Touched(p, before, awarded, held) && Due(p, held);
      Grow(paths, before, awarded, held + {p.participation})
  }

  /** What a recipient who held `before` holds once `awarded` and all that follows from it is issued. */
  ghost function Closure(paths: seq<LearningPath>, before: set<BadgeId>, awarded: set<BadgeId>): set<BadgeId> {
    Grow(paths, before, awarded, before + awarded)
  }

  // ---------- The closure is the least settled set ----------

  lemma CompletedMonotone(p: LearningPath, small: set<BadgeId>, large: set<BadgeId>)
    requires small <= large
    requires Completed(p, small)
    ensures Completed(p, large)
  {
    SubsetCardinality(Rows(p) * small, Rows(p) * large);
  }

  lemma {:induction false} GrowIsSettled(
    paths: seq<LearningPath>, before: set<BadgeId>, awarded: set<BadgeId>, held: set<BadgeId>)
    ensures held <= Grow(paths, before, awarded, held)
    ensures Settled(paths, before, awarded, Grow(paths, before, awarded, held))
    decreases Participations(paths) - held
  {
    if !Settled(paths, before, awarded, held) {
      var p :| p in paths && Touched(p, before, awarded, held) && Due(p, held)
        && Grow(paths, before, awarded, held) == Grow(paths, before, awarded, held + {p.participation});
      GrowIsSettled(paths, before, awarded, held + {p.participation});
    }
  }

  lemma {:induction false} GrowIsBelow(
    paths: seq<LearningPath>, before: set<BadgeId>, awarded: set<BadgeId>, held: set<BadgeId>, upper: set<BadgeId>)
    requires held <= upper && Settled(paths, before, awarded, upper)
    ensures Grow(paths, before, awarded, held) <= upper
    decreases Participations(paths) - held
  {
    if !Settled(paths, before, awarded, held) {
      var p :| p in paths && Touched(p, before, awarded, held) && Due(p, held)
        && Grow(paths, before, awarded, held) == Grow(paths, before, awarded, held + {p.participation});
      CompletedMonotone(p, held, upper);
      GrowIsBelow(paths, before, awarded, held + {p.participation}, upper);
    }
  }

  lemma ClosureIsLeast(paths: seq<LearningPath>, before: set<BadgeId>, awarded: set<BadgeId>)
    ensures before + awarded <= Closure(paths, before, awarded)
    ensures Settled(paths, before, awarded, Closure(paths, before, awarded))
    ensures forall upper: set<BadgeId> ::
              before + awarded <= upper && Settled(paths, before, awarded, upper)
              ==> Closure(paths, before, awarded) <= upper
  {
    GrowIsSettled(paths, before, awarded, before + awarded);
    forall upper: set<BadgeId> | before + awarded <= upper && Settled(paths, before, awarded, upper)
      ensures Closure(paths, before, awarded) <= upper
    {
      GrowIsBelow(paths, before, awarded, before + awarded, upper);
    }
  }

  /** Two-sided bound used by the cascade: anything between the start and the closure that is settled is it. */
  lemma ClosureUnique(
    paths: seq<LearningPath>, before: set<BadgeId>, awarded: set<BadgeId>, held: set<BadgeId>)
    requires before + awarded <= held <= Closure(paths, before, awarded)
    requires Settled(paths, before, awarded, held)
    ensures held == Closure(paths, before, awarded)
  {
    ClosureIsLeast(paths, before, awarded);
  }

  /** From a state with nothing due, the closure is the least set closed under every active path. */
  lemma ClosureFromClosed(paths: seq<LearningPath>, before: set<BadgeId>, awarded: set<BadgeId>)
    requires Closed(paths, before)
    ensures Closed(paths, Closure(paths, before, awarded))
    ensures forall upper: set<BadgeId> ::
              before + awarded <= upper && Closed(paths, upper) ==> Closure(paths, before, awarded) <= upper
  {
    ClosureIsLeast(paths, before, awarded);
    var after := Closure(paths, before, awarded);
    forall p | p in paths
      ensures !Due(p, after)
    {
      NotDueStays(paths, p, before, awarded);
    }
  }

  // ---------- Paths that are due ----------

  /** A path that nothing new touches is completed by the same badges as before. */
  lemma UntouchedRows(p: LearningPath, before: set<BadgeId>, awarded: set<BadgeId>, held: set<BadgeId>)
    requires before <= held && !Touched(p, before, awarded, held)
    ensures Rows(p) * held == Rows(p) * before
  {
  }

  lemma NotDueStays(paths: seq<LearningPath>, p: LearningPath, before: set<BadgeId>, awarded: set<BadgeId>)
    requires p in paths && !Due(p, before)
    ensures !Due(p, Closure(paths, before, awarded))
  {
    ClosureIsLeast(paths, before, awarded);
    var after := Closure(paths, before, awarded);
    if !Touched(p, before, awarded, after) {
      UntouchedRows(p, before, awarded, after);
    }
  }

  /** Awarding never makes a path due, and leaves none due that contains an awarded badge. */
  lemma DueShrinks(paths: seq<LearningPath>, before: set<BadgeId>, awarded: set<BadgeId>)
    ensures forall p | p in paths && Due(p, Closure(paths, before, awarded)) ::
              Due(p, before) && Rows(p) !! awarded
  {
    ClosureIsLeast(paths, before, awarded);
    forall p | p in paths && Due(p, Closure(paths, before, awarded))
      ensures Due(p, before) && Rows(p) !! awarded
    {
      if !Due(p, before) {
        NotDueStays(paths, p, before, awarded);
      }
      assert !Touched(p, before, awarded, Closure(paths, before, awarded));
    }
  }

  // ---------- Sequences of awards ----------

  lemma SettledWeakens(
    paths: seq<LearningPath>, before: set<BadgeId>, awarded: set<BadgeId>,
    before': set<BadgeId>, awarded': set<BadgeId>, held: set<BadgeId>)
    requires Settled(paths, before, awarded, held)
    requires before <= before' <= held && awarded' <= awarded
    ensures Settled(paths, before', awarded', held)
  {
  }

  /** Awarding one batch and then another is awarding both at once. */
  lemma ClosureCompose(
    paths: seq<LearningPath>, before: set<BadgeId>, first: set<BadgeId>, second: set<BadgeId>)
    ensures Closure(paths, Closure(paths, before, first), second) == Closure(paths, before, first + second)
  {
    var mid := Closure(paths, before, first);
    var last := Closure(paths, mid, second);
    var both := Closure(paths, before, first + second);
    ClosureIsLeast(paths, before, first);
    ClosureIsLeast(paths, mid, second);
    ClosureIsLeast(paths, before, first + second);
    SettledWeakens(paths, before, first + second, before, first, both);
    assert mid <= both;
    SettledWeakens(paths, before, first + second, mid, second, both);
    assert last <= both;
    forall p | p in paths && Touched(p, before, first + second, last)
      ensures !Due(p, last)
    {
      if !Touched(p, mid, second, last) {
        UntouchedRows(p, mid, second, last);
        assert Touched(p, before, first, mid);
      }
    }
    assert Settled(paths, before, first + second, last);
    assert both <= last;
  }

  lemma ClosureOfNothing(paths: seq<LearningPath>, held: set<BadgeId>)
    ensures Closure(paths, held, {}) == held
  {
  }

  ghost function AwardAll(paths: seq<LearningPath>, held: set<BadgeId>, awards: seq<BadgeId>): set<BadgeId>
    decreases |awards|
  {
    if awards == [] then held else AwardAll(paths, Closure(paths, held, {awards[0]}), awards[1..])
  }

  function Elements(awards: seq<BadgeId>): set<BadgeId> {
    set b | b in awards
  }

  lemma {:induction false} AwardAllIsClosure(paths: seq<LearningPath>, held: set<BadgeId>, awards: seq<BadgeId>)
    ensures AwardAll(paths, held, awards) == Closure(paths, held, Elements(awards))
    decreases |awards|
  {
    if awards == [] {
      ClosureOfNothing(paths, held);
    } else {
      AwardAllIsClosure(paths, Closure(paths, held, {awards[0]}), awards[1..]);
      ClosureCompose(paths, held, {awards[0]}, Elements(awards[1..]));
      assert {awards[0]} + Elements(awards[1..]) == Elements(awards);
    }
  }

  /** Any two orders of the same awards, repeated or not, end with the same badge classes held,
      whatever paths were already due at the start. */
  lemma AwardOrderIrrelevant(
    paths: seq<LearningPath>, held: set<BadgeId>, awards: seq<BadgeId>, reordered: seq<BadgeId>)
    requires multiset(awards) == multiset(reordered)
    ensures AwardAll(paths, held, awards) == AwardAll(paths, held, reordered)
  {
    AwardAllIsClosure(paths, held, awards);
    AwardAllIsClosure(paths, held, reordered);
    assert forall b :: b in awards <==> b in multiset(awards);
    assert forall b :: b in reordered <==> b in multiset(reordered);
    assert Elements(awards) == Elements(reordered);
  }

  // ---------- Activation ----------

  /** When a path is switched on, awarding its participation badge to everyone for whom it is due is enough
      to have nothing due again, under the paths as they are now. */
  lemma ActivationRestoresClosed(
    paths: seq<LearningPath>, k: nat, held: set<BadgeId>)
    requires k < |paths| && Closed(paths, held)
    ensures var p := paths[k].(activated := true);
            var now := paths[k := p];
            Closed(now, if Due(p, held) then Closure(now, held, {p.participation}) else held)
  {
    var p := paths[k].(activated := true);
    var now := paths[k := p];
    assert forall q | q in now :: q == p || q in paths;
    if Due(p, held) {
      var after := Closure(now, held, {p.participation});
      ClosureIsLeast(now, held, {p.participation});
      forall q | q in now
        ensures !Due(q, after)
      {
        if q != p {
          NotDueStays(now, q, held, {p.participation});
        }
      }
    }
  }
}
