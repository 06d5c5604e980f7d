/** BadgeInstanceManager.create: saving one award, then issuing the participation badge of every path the
    award completes, which calls create again.
 */
module AwardCascade {
  import opened Basics
  import opened Text
  import opened AwardRules

  datatype RecipientType = Email | Url | OpenBadgeId | Telephone

  datatype BadgeInstance = BadgeInstance(badge: BadgeId, recipient: string, revoked: bool)

  /** What is fixed while awards are made: the paths, how the database compares identifiers, and the
      normal form of a URL. */
  datatype Site = Site(
    paths: seq<LearningPath>,
    collate: string -> string,
    normalizeUrl: string -> string)

  function Sanitize(site: Site, recipient: string, kind: RecipientType, allowUppercase: bool): string {
    match kind
    case Email => if allowUppercase then recipient else Lower(recipient)
    case Url => site.normalizeUrl(recipient)
    case _ => recipient
  }

  /** The cascade reaches the recipient it started from. */
  predicate Stable(site: Site, recipient: string) {
    site.collate(Lower(recipient)) == site.collate(recipient)
  }

  predicate Matches(site: Site, row: BadgeInstance, recipient: string) {
    !row.revoked && site.collate(row.recipient) == site.collate(recipient)
  }

  /** Badge classes of which the recipient has an unrevoked instance. */
  function Held(site: Site, table: seq<BadgeInstance>, recipient: string): set<BadgeId> {
    set i | 0 <= i < |table| && Matches(site, table[i], recipient) :: table[i].badge
  }

  function CompletedBadges(site: Site, table: seq<BadgeInstance>, p: LearningPath, recipient: string): set<BadgeId> {
    set i | 0 <= i < |table| && Matches(site, table[i], recipient) && table[i].badge in p.badges :: table[i].badge
  }

  predicate UserHasCompleted(site: Site, table: seq<BadgeInstance>, p: LearningPath, recipient: string) {
    |CompletedBadges(site, table, p, recipient)| >= p.required
  }

  predicate UserShouldHaveBadge(site: Site, table: seq<BadgeInstance>, p: LearningPath, recipient: string) {
    UserHasCompleted(site, table, p, recipient)
    && !exists i :: 0 <= i < |table| && table[i].badge == p.participation && Matches(site, table[i], recipient)
  }

  /** The path queries over the instance table are the threshold rule over the held set. */
  lemma QueriesAreRules(site: Site, table: seq<BadgeInstance>, p: LearningPath, recipient: string)
    ensures UserHasCompleted(site, table, p, recipient) <==> Completed(p, Held(site, table, recipient))
    ensures UserShouldHaveBadge(site, table, p, recipient) <==> Wanting(p, Held(site, table, recipient))
  {
    assert CompletedBadges(site, table, p, recipient) == Rows(p) * Held(site, table, recipient);
  }

  lemma HeldAppend(site: Site, table: seq<BadgeInstance>, row: BadgeInstance, recipient: string)
    ensures Held(site, table + [row], recipient)
         == Held(site, table, recipient) + (if Matches(site, row, recipient) then {row.badge} else {})
  {
    var all := table + [row];
    assert all[|table|] == row;
    forall b
      ensures b in Held(site, all, recipient) <==>
              b in Held(site, table, recipient) + (if Matches(site, row, recipient) then {row.badge} else {})
    {
      if b in Held(site, table, recipient) {
        var i :| 0 <= i < |table| && Matches(site, table[i], recipient) && table[i].badge == b;
        assert all[i] == table[i];
      }
    }
  }

  lemma HeldFrame(site: Site, table: seq<BadgeInstance>, added: seq<BadgeInstance>, recipient: string)
    requires forall row | row in added :: !Matches(site, row, recipient)
    ensures Held(site, table + added, recipient) == Held(site, table, recipient)
  {
    var all := table + added;
    forall b
      ensures b in Held(site, all, recipient) <==> b in Held(site, table, recipient)
    {
      if b in Held(site, table, recipient) {
        var i :| 0 <= i < |table| && Matches(site, table[i], recipient) && table[i].badge == b;
        assert all[i] == table[i];
      }
      if b in Held(site, all, recipient) {
        var i :| 0 <= i < |all| && Matches(site, all[i], recipient) && all[i].badge == b;
        assert i >= |table| ==> all[i] in added;
      }
    }
  }

  // ---------- What one call does to the table ----------

  function Badges(rows: seq<BadgeInstance>): set<BadgeId> {
    set i | 0 <= i < |rows| :: rows[i].badge
  }

  ghost predicate AllFor(rows: seq<BadgeInstance>, recipient: string) {
    forall row | row in rows :: row.recipient == recipient && !row.revoked
  }

  /** One row for each badge of the set, and no other. */
  ghost predicate OneEach(rows: seq<BadgeInstance>, badges: set<BadgeId>) {
    && (forall i, j | 0 <= i < j < |rows| :: rows[i].badge != rows[j].badge)
    && Badges(rows) == badges
  }

  /** Participation badges of the active paths with b in them that are due to someone holding `held`. */
  ghost function DueWith(paths: seq<LearningPath>, b: BadgeId, held: set<BadgeId>): set<BadgeId> {
    set p | p in paths && b in p.badges && Due(p, held) :: p.participation
  }

  /** Rows of the join of paths and badge rows: a path comes once for each of its rows with b. */
  function Joined(paths: seq<LearningPath>, b: BadgeId): seq<LearningPath> {
    if paths == [] then []
    else (if Active(paths[0]) then seq(multiset(paths[0].badges)[b], _ => paths[0]) else []) + Joined(paths[1..], b)
  }

  lemma {:induction false} JoinedMembers(paths: seq<LearningPath>, b: BadgeId, p: LearningPath)
    ensures p in Joined(paths, b) <==> p in paths && Active(p) && b in p.badges
  {
    if paths != [] {
      JoinedMembers(paths[1..], b, p);
      var head := seq(multiset(paths[0].badges)[b], _ => paths[0]);
      assert b in paths[0].badges <==> b in multiset(paths[0].badges);
      assert |head| > 0 ==> head[0] == paths[0];
    }
  }

  function Count(rows: seq<BadgeInstance>, c: BadgeId): nat {
    if rows == [] then 0
    else Count(rows[..|rows| - 1], c) + if rows[|rows| - 1].badge == c then 1 else 0
  }

  /** How many of these paths are due to someone holding `held` and have participation badge c. */
  function CountDue(found: seq<LearningPath>, held: set<BadgeId>, c: BadgeId): nat {
    if found == [] then 0
    else
      var last := found[|found| - 1];
      CountDue(found[..|found| - 1], held, c) + if Due(last, held) && last.participation == c then 1 else 0
  }

  /** `count` new rows, when `dues` paths issued the badge themselves: these, and one more only if the cascade
      of another path issued it before, to someone who did not have it. */
  predicate Tally(count: nat, dues: nat, had: bool, has: bool) {
    && (dues > 0 || had ==> has)
    && (count == dues || (count == dues + 1 && !had))
    && (dues == 0 ==> (count == 1 <==> has && !had))
  }

  /** The table after awarding b to r (already sanitized): the new row, then the cascade's rows, which all
      go to the lower-cased identifier. For a stable r these are one row for each badge of the closure that
      r lacked. Otherwise r only gains b, and the lower-cased identifier gains what is due to r, once for each
      row of b in a path that is due. */
  ghost predicate Awards(site: Site, before: seq<BadgeInstance>, after: seq<BadgeInstance>, b: BadgeId, r: string) {
    && |after| > |before|
    && after[..|before| + 1] == before + [BadgeInstance(b, r, false)]
    && AllFor(after[|before| + 1..], Lower(r))
    && (Stable(site, r) ==>
          && Held(site, after, r) == Closure(site.paths, Held(site, before, r), {b})
          && OneEach(after[|before| + 1..], Held(site, after, r) - Held(site, before, r) - {b}))
    && (!Stable(site, r) ==>
          && Held(site, after, r) == Held(site, before, r) + {b}
          && Held(site, after, Lower(r)) ==
             Closure(site.paths, Held(site, before, Lower(r)), DueWith(site.paths, b, Held(site, before, r) + {b}))
          && forall c ::
               Tally(Count(after[|before| + 1..], c),
                     CountDue(Joined(site.paths, b), Held(site, before, r) + {b}, c),
                     c in Held(site, before, Lower(r)), c in Held(site, after, Lower(r))))
  }

  // ---------- The cascade ----------

  /** State of the loop for a stable recipient: nothing beyond the closure, and nothing due that a badge
      issued by the cascade touches. */
  ghost predicate Underway(paths: seq<LearningPath>, before: set<BadgeId>, b: BadgeId, held: set<BadgeId>) {
    && before + {b} <= held <= Closure(paths, before, {b})
    && Settled(paths, before + {b}, {}, held)
  }

  lemma CascadeStep(
    paths: seq<LearningPath>, before: set<BadgeId>, b: BadgeId, held: set<BadgeId>, p: LearningPath)
    requires Underway(paths, before, b, held)
    requires p in paths && b in p.badges && Due(p, held)
    ensures Underway(paths, before, b, Closure(paths, held, {p.participation}))
    ensures forall q | q in paths && !Due(q, held) :: !Due(q, Closure(paths, held, {p.participation}))
  {
    var c := p.participation;
    var goal := Closure(paths, before, {b});
    var next := Closure(paths, held, {c});
    ClosureIsLeast(paths, before, {b});
    ClosureIsLeast(paths, held, {c});
    assert c in goal by {
      CompletedMonotone(p, held, goal);
      assert b in Rows(p) && Touched(p, before, {b}, goal);
    }
    assert Settled(paths, held, {c}, goal) by {
      forall q | q in paths && Touched(q, held, {c}, goal)
        ensures !Due(q, goal)
      {
        assert Touched(q, before, {b}, goal);
      }
    }
    assert next <= goal;
    forall q | q in paths && !Due(q, held)
      ensures !Due(q, next)
    {
      NotDueStays(paths, q, held, {c});
    }
    forall q | q in paths && Touched(q, before + {b}, {}, next)
      ensures !Due(q, next)
    {
      if !Touched(q, held, {c}, next) {
        assert Touched(q, before + {b}, {}, held);
      }
    }
  }

  lemma CascadeDone(
    paths: seq<LearningPath>, before: set<BadgeId>, b: BadgeId, held: set<BadgeId>)
    requires Underway(paths, before, b, held)
    requires forall p | p in paths && b in p.badges :: !Due(p, held)
    ensures held == Closure(paths, before, {b})
  {
    forall p | p in paths && Touched(p, before, {b}, held)
      ensures !Due(p, held)
    {
      if b !in p.badges {
        assert Touched(p, before + {b}, {}, held);
      }
    }
    ClosureUnique(paths, before, {b}, held);
  }

  lemma CascadeStart(paths: seq<LearningPath>, before: set<BadgeId>, b: BadgeId)
    ensures Underway(paths, before, b, before + {b})
  {
    ClosureIsLeast(paths, before, {b});
  }

  lemma BadgesAppend(rows: seq<BadgeInstance>, more: seq<BadgeInstance>)
    ensures Badges(rows + more) == Badges(rows) + Badges(more)
  {
    var all := rows + more;
    forall b | b in Badges(rows)
      ensures b in Badges(all)
    {
      var i :| 0 <= i < |rows| && rows[i].badge == b;
      assert all[i].badge == b;
    }
    forall b | b in Badges(more)
      ensures b in Badges(all)
    {
      var i :| 0 <= i < |more| && more[i].badge == b;
      assert all[|rows| + i].badge == b;
    }
  }

  lemma OneEachJoin(rows: seq<BadgeInstance>, badges: set<BadgeId>, more: seq<BadgeInstance>, rest: set<BadgeId>)
    requires OneEach(rows, badges) && OneEach(more, rest) && badges !! rest
    ensures OneEach(rows + more, badges + rest)
  {
    BadgesAppend(rows, more);
    assert forall i | 0 <= i < |rows| :: rows[i].badge in badges;
    assert forall i | 0 <= i < |more| :: more[i].badge in rest;
  }

  lemma OneEachAppend(
    rows: seq<BadgeInstance>, badges: set<BadgeId>, first: BadgeInstance, more: seq<BadgeInstance>, rest: set<BadgeId>)
    requires OneEach(rows, badges) && OneEach(more, rest)
    requires first.badge !in badges && first.badge !in rest && badges !! rest
    ensures OneEach(rows + ([first] + more), badges + {first.badge} + rest)
  {
    assert [first][0] == first;
    OneEachJoin([first], {first.badge}, more, rest);
    OneEachJoin(rows, badges, [first] + more, {first.badge} + rest);
    assert badges + ({first.badge} + rest) == badges + {first.badge} + rest;
  }

  lemma GainsAddUp<T>(start: set<T>, held: set<T>, c: T, next: set<T>)
    requires start <= held <= next && c in next && c !in held
    ensures (held - start) + {c} + (next - held - {c}) == next - start
  {
  }

  /** What the query for paths to re-check returns, in any order: the active paths with b, each once for each
      of its rows with b. */
  ghost predicate Found(site: Site, b: BadgeId, found: seq<LearningPath>) {
    multiset(found) == multiset(Joined(site.paths, b))
  }

  lemma FoundMembers(site: Site, b: BadgeId, found: seq<LearningPath>)
    requires Found(site, b, found)
    ensures forall p :: p in found <==> p in site.paths && Active(p) && b in p.badges
  {
    forall p
      ensures p in found <==> p in site.paths && Active(p) && b in p.badges
    {
      JoinedMembers(site.paths, b, p);
      assert p in found <==> p in multiset(found);
      assert p in Joined(site.paths, b) <==> p in multiset(Joined(site.paths, b));
    }
  }

  lemma {:induction false} CountDueAppend(
    front: seq<LearningPath>, back: seq<LearningPath>, held: set<BadgeId>, c: BadgeId)
    ensures CountDue(front + back, held, c) == CountDue(front, held, c) + CountDue(back, held, c)
    decreases |back|
  {
    if back == [] {
      assert front + back == front;
    } else {
      var all, k := front + back, |back| - 1;
      CountDueAppend(front, back[..k], held, c);
      assert all[..|all| - 1] == front + back[..k] && all[|all| - 1] == back[k];
    }
  }

  lemma {:induction false} CountDuePermuted(
    found: seq<LearningPath>, order: seq<LearningPath>, held: set<BadgeId>, c: BadgeId)
    requires multiset(found) == multiset(order)
    ensures CountDue(found, held, c) == CountDue(order, held, c)
    decreases |found|
  {
    if found == [] {
      assert |multiset(order)| == 0;
    } else {
      var init, last := found[..|found| - 1], found[|found| - 1];
      assert found == init + [last];
      assert multiset(found) == multiset(init) + multiset{last};
      var front, back := Around(order, last);
      OneLess(multiset(init), multiset(front + back), last);
      CountDuePermuted(init, front + back, held, c);
      CountDueAppend(front, back, held, c);
      CountDueAppend(front, [last] + back, held, c);
      CountDueAppend([last], back, held, c);
      CountDueAppend(init, [last], held, c);
    }
  }

  lemma {:induction false} CountAppend(rows: seq<BadgeInstance>, more: seq<BadgeInstance>, c: BadgeId)
    ensures Count(rows + more, c) == Count(rows, c) + Count(more, c)
    decreases |more|
  {
    if more == [] {
      assert rows + more == rows;
    } else {
      var all, k := rows + more, |more| - 1;
      CountAppend(rows, more[..k], c);
      assert all[..|all| - 1] == rows + more[..k] && all[|all| - 1] == more[k];
    }
  }

  lemma {:induction false} CountOneEach(rows: seq<BadgeInstance>, badges: set<BadgeId>, c: BadgeId)
    requires OneEach(rows, badges)
    ensures Count(rows, c) == if c in badges then 1 else 0
    decreases |rows|
  {
    if rows != [] {
      var init, last := rows[..|rows| - 1], rows[|rows| - 1];
      assert rows == init + [last];
      OneEachInit(init, last, badges);
      CountOneEach(init, badges - {last.badge}, c);
    }
  }

  lemma OneEachInit(rows: seq<BadgeInstance>, last: BadgeInstance, badges: set<BadgeId>)
    requires OneEach(rows + [last], badges)
    ensures OneEach(rows, badges - {last.badge}) && last.badge in badges
  {
    var all := rows + [last];
    assert all[|rows|] == last;
    assert forall i | 0 <= i < |rows| :: all[i] == rows[i];
    assert forall i | 0 <= i < |rows| :: all[i].badge != last.badge && all[i].badge in Badges(all);
    forall c | c in badges - {last.badge}
      ensures c in Badges(rows)
    {
      var i :| 0 <= i < |all| && all[i].badge == c;
      assert rows[i].badge == c;
    }
  }

  function Seen(found: seq<LearningPath>, i: nat): set<LearningPath>
    requires i <= |found|
  {
    set k | 0 <= k < i :: found[k]
  }

  lemma SeenNext(found: seq<LearningPath>, i: nat)
    requires i < |found|
    ensures Seen(found, i + 1) == Seen(found, i) + {found[i]}
  {
  }

  // ---------- The loop of create ----------

  /** The table extends `first` by rows for the identifier `low`. */
  ghost predicate Extends(first: seq<BadgeInstance>, table: seq<BadgeInstance>, low: string) {
    |first| <= |table| && table[..|first|] == first && AllFor(table[|first|..], low)
  }

  lemma ExtendsMore(first: seq<BadgeInstance>, prior: seq<BadgeInstance>, added: seq<BadgeInstance>, low: string)
    requires Extends(first, prior, low) && AllFor(added, low)
    ensures Extends(first, prior + added, low)
    ensures (prior + added)[|first|..] == prior[|first|..] + added
  {
  }

  /** After the paths in `seen`, for a stable recipient. */
  ghost predicate StableSoFar(
    site: Site, first: seq<BadgeInstance>, table: seq<BadgeInstance>, b: BadgeId, r: string, before: set<BadgeId>,
    seen: set<LearningPath>)
  {
    && Extends(first, table, Lower(r))
    && Underway(site.paths, before, b, Held(site, table, r))
    && OneEach(table[|first|..], Held(site, table, r) - (before + {b}))
    && (forall p | p in seen :: !Due(p, Held(site, table, r)))
  }

  /** What issuing c adds on behalf of a stable recipient r, seen from r. */
  ghost predicate IssuedTo(site: Site, prior: seq<BadgeInstance>, table: seq<BadgeInstance>, c: BadgeId, r: string) {
    var held, next := Held(site, prior, r), Held(site, table, r);
    exists issued: BadgeInstance, tail: seq<BadgeInstance> ::
      && table == prior + ([issued] + tail)
      && issued.badge == c && AllFor([issued] + tail, Lower(r))
      && next == Closure(site.paths, held, {c})
      && OneEach(tail, next - held - {c})
  }

  lemma AwardsSplit(site: Site, prior: seq<BadgeInstance>, table: seq<BadgeInstance>, c: BadgeId, low: string)
    requires Awards(site, prior, table, c, low) && Lower(low) == low
    ensures table == prior + ([BadgeInstance(c, low, false)] + table[|prior| + 1..])
    ensures AllFor([BadgeInstance(c, low, false)] + table[|prior| + 1..], low)
  {
  }

  lemma IssuedToStable(site: Site, prior: seq<BadgeInstance>, table: seq<BadgeInstance>, c: BadgeId, r: string)
    requires Stable(site, r) && Awards(site, prior, table, c, Lower(r))
    ensures IssuedTo(site, prior, table, c, r)
  {
    LowerIdempotent(r);
    AwardsSplit(site, prior, table, c, Lower(r));
    assert Held(site, prior, r) == Held(site, prior, Lower(r));
    assert Held(site, table, r) == Held(site, table, Lower(r));
  }

  lemma StableStep(
    site: Site, first: seq<BadgeInstance>, prior: seq<BadgeInstance>, table: seq<BadgeInstance>,
    b: BadgeId, r: string, before: set<BadgeId>, seen: set<LearningPath>, p: LearningPath)
    requires StableSoFar(site, first, prior, b, r, before, seen)
    requires p in site.paths && b in p.badges && Due(p, Held(site, prior, r))
    requires forall q | q in seen :: q in site.paths
    requires IssuedTo(site, prior, table, p.participation, r)
    ensures StableSoFar(site, first, table, b, r, before, seen + {p})
  {
    var c := p.participation;
    var held, next := Held(site, prior, r), Held(site, table, r);
    var issued: BadgeInstance, tail: seq<BadgeInstance> :|
      && table == prior + ([issued] + tail)
      && issued.badge == c && AllFor([issued] + tail, Lower(r))
      && next == Closure(site.paths, held, {c})
      && OneEach(tail, next - held - {c});
    CascadeStep(site.paths, before, b, held, p);
    ClosureIsLeast(site.paths, held, {c});
    ExtendsMore(first, prior, [issued] + tail, Lower(r));
    GainsAddUp(before + {b}, held, c, next);
    OneEachAppend(prior[|first|..], held - (before + {b}), issued, tail, next - held - {c});
  }

  /** After the paths in `seen`, for a recipient the cascade does not reach. */
  ghost predicate StraySoFar(
    site: Site, first: seq<BadgeInstance>, table: seq<BadgeInstance>, r: string,
    held: set<BadgeId>, lowBefore: set<BadgeId>, seen: set<LearningPath>)
  {
    && Extends(first, table, Lower(r))
    && Held(site, table, r) == held
    && Held(site, table, Lower(r))
       == Closure(site.paths, lowBefore, set p | p in seen && Due(p, held) :: p.participation)
  }

  lemma StraySkip(
    site: Site, first: seq<BadgeInstance>, table: seq<BadgeInstance>, r: string,
    held: set<BadgeId>, lowBefore: set<BadgeId>, seen: set<LearningPath>, p: LearningPath)
    requires StraySoFar(site, first, table, r, held, lowBefore, seen) && !Due(p, held)
    ensures StraySoFar(site, first, table, r, held, lowBefore, seen + {p})
  {
    assert (set q | q in seen + {p} && Due(q, held) :: q.participation)
        == (set q | q in seen && Due(q, held) :: q.participation);
  }

  lemma StrayStep(
    site: Site, first: seq<BadgeInstance>, prior: seq<BadgeInstance>, added: seq<BadgeInstance>, r: string,
    held: set<BadgeId>, lowBefore: set<BadgeId>, seen: set<LearningPath>, p: LearningPath)
    requires !Stable(site, r) && StraySoFar(site, first, prior, r, held, lowBefore, seen)
    requires Due(p, held) && AllFor(added, Lower(r))
    requires Held(site, prior + added, Lower(r))
          == Closure(site.paths, Held(site, prior, Lower(r)), {p.participation})
    ensures StraySoFar(site, first, prior + added, r, held, lowBefore, seen + {p})
  {
    HeldFrame(site, prior, added, r);
    var dues := set q | q in seen && Due(q, held) :: q.participation;
    ClosureCompose(site.paths, lowBefore, dues, {p.participation});
    assert (set q | q in seen + {p} && Due(q, held) :: q.participation) == dues + {p.participation};
    ExtendsMore(first, prior, added, Lower(r));
  }

  lemma StrayStepAwards(
    site: Site, first: seq<BadgeInstance>, prior: seq<BadgeInstance>, table: seq<BadgeInstance>, r: string,
    held: set<BadgeId>, lowBefore: set<BadgeId>, seen: set<LearningPath>, p: LearningPath)
    requires !Stable(site, r) && StraySoFar(site, first, prior, r, held, lowBefore, seen)
    requires Due(p, held) && Awards(site, prior, table, p.participation, Lower(r))
    ensures StraySoFar(site, first, table, r, held, lowBefore, seen + {p})
  {
    LowerIdempotent(r);
    AwardsSplit(site, prior, table, p.participation, Lower(r));
    var added := [BadgeInstance(p.participation, Lower(r), false)] + table[|prior| + 1..];
    StrayStep(site, first, prior, added, r, held, lowBefore, seen, p);
  }

  /** After the paths in `seen`, with their repetitions: the rows issued so far to a recipient that is not r. */
  ghost predicate Tallied(
    site: Site, first: seq<BadgeInstance>, table: seq<BadgeInstance>, r: string,
    held: set<BadgeId>, lowBefore: set<BadgeId>, seen: seq<LearningPath>)
    requires |first| <= |table|
  {
    forall c ::
      Tally(Count(table[|first|..], c), CountDue(seen, held, c), c in lowBefore, c in Held(site, table, Lower(r)))
  }

  lemma CountDueNext(seen: seq<LearningPath>, p: LearningPath, held: set<BadgeId>, c: BadgeId)
    ensures CountDue(seen + [p], held, c)
         == CountDue(seen, held, c) + if Due(p, held) && p.participation == c then 1 else 0
  {
    assert (seen + [p])[..|seen|] == seen;
  }

  lemma TallyStep(
    site: Site, first: seq<BadgeInstance>, prior: seq<BadgeInstance>, table: seq<BadgeInstance>, r: string,
    held: set<BadgeId>, lowBefore: set<BadgeId>, seen: seq<LearningPath>, p: LearningPath)
    requires Extends(first, prior, Lower(r)) && Extends(first, table, Lower(r))
    requires Tallied(site, first, prior, r, held, lowBefore, seen)
    requires Due(p, held) && Awards(site, prior, table, p.participation, Lower(r))
    ensures Tallied(site, first, table, r, held, lowBefore, seen + [p])
  {
    var low, d := Lower(r), p.participation;
    LowerIdempotent(r);
    AwardsSplit(site, prior, table, d, low);
    var issued, tail := BadgeInstance(d, low, false), table[|prior| + 1..];
    ClosureIsLeast(site.paths, Held(site, prior, low), {d});
    assert table[|first|..] == prior[|first|..] + ([issued] + tail);
    forall c
      ensures Tally(Count(table[|first|..], c), CountDue(seen + [p], held, c), c in lowBefore,
                    c in Held(site, table, low))
    {
      CountDueNext(seen, p, held, c);
      CountAppend(prior[|first|..], [issued] + tail, c);
      CountAppend([issued], tail, c);
      assert [issued][..0] == [];
      CountOneEach(tail, Held(site, table, low) - Held(site, prior, low) - {d}, c);
      assert Tally(Count(prior[|first|..], c), CountDue(seen, held, c), c in lowBefore, c in Held(site, prior, low));
    }
  }

  lemma TallySkip(
    site: Site, first: seq<BadgeInstance>, table: seq<BadgeInstance>, r: string,
    held: set<BadgeId>, lowBefore: set<BadgeId>, seen: seq<LearningPath>, p: LearningPath)
    requires |first| <= |table| && Tallied(site, first, table, r, held, lowBefore, seen) && !Due(p, held)
    ensures Tallied(site, first, table, r, held, lowBefore, seen + [p])
  {
    forall c
      ensures Tally(Count(table[|first|..], c), CountDue(seen + [p], held, c), c in lowBefore,
                    c in Held(site, table, Lower(r)))
    {
      CountDueNext(seen, p, held, c);
      assert Tally(Count(table[|first|..], c), CountDue(seen, held, c), c in lowBefore,
                   c in Held(site, table, Lower(r)));
    }
  }

  /** The loop invariant of create, where `start` is the table before the award. */
  ghost predicate SoFar(
    site: Site, start: seq<BadgeInstance>, table: seq<BadgeInstance>, b: BadgeId, r: string,
    found: seq<LearningPath>, i: nat)
    requires i <= |found|
  {
    var first, before, low := start + [BadgeInstance(b, r, false)], Held(site, start, r), Held(site, start, Lower(r));
    if Stable(site, r) then StableSoFar(site, first, table, b, r, before, Seen(found, i))
    else
      && StraySoFar(site, first, table, r, before + {b}, low, Seen(found, i))
      && Tallied(site, first, table, r, before + {b}, low, found[..i])
  }

  lemma CreateStart(site: Site, start: seq<BadgeInstance>, b: BadgeId, r: string, found: seq<LearningPath>)
    ensures SoFar(site, start, start + [BadgeInstance(b, r, false)], b, r, found, 0)
  {
    assert Seen(found, 0) == {} && found[..0] == [];
    var row := BadgeInstance(b, r, false);
    HeldAppend(site, start, row, r);
    HeldAppend(site, start, row, Lower(r));
    CascadeStart(site.paths, Held(site, start, r), b);
    ClosureOfNothing(site.paths, Held(site, start, Lower(r)));
    assert (start + [row])[|start| + 1..] == [];
    assert (set p: LearningPath | p in {} && Due(p, Held(site, start, r) + {b}) :: p.participation) == {};
  }

  lemma CreateSkip(
    site: Site, start: seq<BadgeInstance>, table: seq<BadgeInstance>, b: BadgeId, r: string,
    found: seq<LearningPath>, i: nat)
    requires i < |found| && SoFar(site, start, table, b, r, found, i) && !Due(found[i], Held(site, table, r))
    ensures SoFar(site, start, table, b, r, found, i + 1)
  {
    SeenNext(found, i);
    assert found[..i + 1] == found[..i] + [found[i]];
    if !Stable(site, r) {
      var first, held, low :=
        start + [BadgeInstance(b, r, false)], Held(site, start, r) + {b}, Held(site, start, Lower(r));
      StraySkip(site, first, table, r, held, low, Seen(found, i), found[i]);
      TallySkip(site, first, table, r, held, low, found[..i], found[i]);
    }
  }

  lemma CreateStepStray(
    site: Site, start: seq<BadgeInstance>, prior: seq<BadgeInstance>, table: seq<BadgeInstance>,
    b: BadgeId, r: string, found: seq<LearningPath>, i: nat)
    requires !Stable(site, r) && i < |found|
    requires SoFar(site, start, prior, b, r, found, i) && Due(found[i], Held(site, prior, r))
    requires Awards(site, prior, table, found[i].participation, Lower(r))
    ensures SoFar(site, start, table, b, r, found, i + 1)
  {
    var first, held, low :=
      start + [BadgeInstance(b, r, false)], Held(site, start, r) + {b}, Held(site, start, Lower(r));
    SeenNext(found, i);
    assert found[..i + 1] == found[..i] + [found[i]];
    StrayStepAwards(site, first, prior, table, r, held, low, Seen(found, i), found[i]);
    TallyStep(site, first, prior, table, r, held, low, found[..i], found[i]);
  }

  lemma CreateStep(
    site: Site, start: seq<BadgeInstance>, prior: seq<BadgeInstance>, table: seq<BadgeInstance>,
    b: BadgeId, r: string, found: seq<LearningPath>, i: nat)
    requires Found(site, b, found) && i < |found|
    requires SoFar(site, start, prior, b, r, found, i) && Due(found[i], Held(site, prior, r))
    requires Awards(site, prior, table, found[i].participation, Lower(r))
    ensures SoFar(site, start, table, b, r, found, i + 1)
  {
    if Stable(site, r) {
      var p := found[i];
      SeenNext(found, i);
      FoundMembers(site, b, found);
      assert p in found && forall q | q in Seen(found, i) :: q in found;
      IssuedToStable(site, prior, table, p.participation, r);
      StableStep(site, start + [BadgeInstance(b, r, false)], prior, table, b, r, Held(site, start, r),
                 Seen(found, i), p);
    } else {
      CreateStepStray(site, start, prior, table, b, r, found, i);
    }
  }

  /** Participation badges the recipient still lacks once b is awarded. */
  ghost function Missing(site: Site, table: seq<BadgeInstance>, b: BadgeId, r: string): set<BadgeId> {
    Participations(site.paths) - Held(site, table, r) - {b}
  }

  /** Why the cascade ends, on any graph of paths: each nested call issues a participation badge that the
      recipient did not hold, or moves to the lower-cased identifier once and for all. */
  lemma IssueDecreases(
    site: Site, start: seq<BadgeInstance>, table: seq<BadgeInstance>, b: BadgeId, r: string,
    found: seq<LearningPath>, i: nat, p: LearningPath)
    requires i <= |found| && SoFar(site, start, table, b, r, found, i)
    requires p in site.paths && Due(p, Held(site, table, r))
    ensures Stable(site, Lower(r))
    ensures Stable(site, r) ==> Missing(site, table, p.participation, Lower(r)) < Missing(site, start, b, r)
  {
    LowerIdempotent(r);
    if Stable(site, r) {
      assert Held(site, table, r) == Held(site, table, Lower(r));
      assert p.participation in Missing(site, start, b, r);
    }
  }

  lemma TallyDone(
    site: Site, first: seq<BadgeInstance>, table: seq<BadgeInstance>, b: BadgeId, r: string,
    held: set<BadgeId>, lowBefore: set<BadgeId>, found: seq<LearningPath>)
    requires Found(site, b, found)
    requires |first| <= |table| && Tallied(site, first, table, r, held, lowBefore, found)
    ensures Tallied(site, first, table, r, held, lowBefore, Joined(site.paths, b))
  {
    forall c
      ensures CountDue(Joined(site.paths, b), held, c) == CountDue(found, held, c)
    {
      CountDuePermuted(Joined(site.paths, b), found, held, c);
    }
  }

  lemma CreateDone(
    site: Site, start: seq<BadgeInstance>, table: seq<BadgeInstance>, b: BadgeId, r: string, found: seq<LearningPath>)
    requires Found(site, b, found) && SoFar(site, start, table, b, r, found, |found|)
    ensures Awards(site, start, table, b, r)
  {
    var seen := Seen(found, |found|);
    FoundMembers(site, b, found);
    assert found[..|found|] == found;
    assert forall p :: p in seen <==> p in found;
    if Stable(site, r) {
      CascadeDone(site.paths, Held(site, start, r), b, Held(site, table, r));
      assert Held(site, table, r) - (Held(site, start, r) + {b}) == Held(site, table, r) - Held(site, start, r) - {b};
    } else {
      var held := Held(site, start, r) + {b};
      assert (set p | p in seen && Due(p, held) :: p.participation) == DueWith(site.paths, b, held);
      TallyDone(site, start + [BadgeInstance(b, r, false)], table, b, r, held, Held(site, start, Lower(r)), found);
    }
  }

  class BadgeInstanceManager {
    const site: Site
    var table: seq<BadgeInstance>

    constructor (site: Site)
      ensures this.site == site && table == []
    {
      this.site := site;
      table := [];
    }

    /** The order of the result is the database's choice. */
    method ActivePathsWith(b: BadgeId) returns (found: seq<LearningPath>)
      ensures Found(site, b, found)
    {
      found := Joined(site.paths, b);
    }

    method Create(b: BadgeId, recipient: string, kind: RecipientType, allowUppercase: bool)
      returns (instance: BadgeInstance)
      modifies this
      ensures instance.badge == b && !instance.revoked
      ensures instance.recipient == Sanitize(site, recipient, kind, allowUppercase)
      ensures kind == Email && !allowUppercase ==> instance.recipient == Lower(recipient)
      ensures kind == Url ==> instance.recipient == site.normalizeUrl(recipient)
      ensures kind in {OpenBadgeId, Telephone} || (kind == Email && allowUppercase) ==> instance.recipient == recipient
      ensures Awards(site, old(table), table, b, instance.recipient)
      decreases
        !Stable(site, Sanitize(site, recipient, kind, allowUppercase)),
        Missing(site, table, b, Sanitize(site, recipient, kind, allowUppercase)),
        0
    {
      var r := Sanitize(site, recipient, kind, allowUppercase);
      instance := BadgeInstance(b, r, false);
      table := table + [instance];
      var found := ActivePathsWith(b);
      FoundMembers(site, b, found);
      CreateStart(site, old(table), b, r, found);
      for i := 0 to |found|
        invariant SoFar(site, old(table), table, b, r, found, i)
      {
        var p := found[i];
        assert p in found;
        QueriesAreRules(site, table, p, r);
        ghost var prior := table;
        if UserShouldHaveBadge(site, table, p, r) {
          IssueDecreases(site, old(table), table, b, r, found, i, p);
          var _ := Issue(p.participation, r, Email, false);
          CreateStep(site, old(table), prior, table, b, r, found, i);
        } else {
          CreateSkip(site, old(table), table, b, r, found, i);
        }
      }
      CreateDone(site, old(table), table, b, r, found);
    }

    /** BadgeClass.issue */
    method Issue(b: BadgeId, recipient: string, kind: RecipientType, allowUppercase: bool)
      returns (instance: BadgeInstance)
      modifies this
      ensures instance.badge == b && !instance.revoked
      ensures instance.recipient == Sanitize(site, recipient, kind, allowUppercase)
      ensures kind == Email && !allowUppercase ==> instance.recipient == Lower(recipient)
      ensures kind == Url ==> instance.recipient == site.normalizeUrl(recipient)
      ensures kind in {OpenBadgeId, Telephone} || (kind == Email && allowUppercase) ==> instance.recipient == recipient
      ensures Awards(site, old(table), table, b, instance.recipient)
      decreases
        !Stable(site, Sanitize(site, recipient, kind, allowUppercase)),
        Missing(site, table, b, Sanitize(site, recipient, kind, allowUppercase)),
        1
    {
      instance := Create(b, recipient, kind, allowUppercase);
    }
  }
}
