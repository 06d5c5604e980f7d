/** BadgeUser.set_email_items: one transaction over the address table. */
module EmailItems {
  import opened Basics
  import opened Text
  import opened EmailRules

  datatype Outcome = Success | Raised(error: Error)

  function PrimaryCount(value: seq<EmailData>): nat {
    if value == [] then 0
    else PrimaryCount(value[..|value| - 1]) + if value[|value| - 1].primary then 1 else 0
  }

  lemma {:induction false} PrimaryCountAtLeast(value: seq<EmailData>, p: nat)
    requires p < |value| && value[p].primary
    ensures PrimaryCount(value) >= 1
    ensures forall j | 0 <= j < |value| && j != p && value[j].primary :: PrimaryCount(value) >= 2
    decreases |value|
  {
    var n := |value| - 1;
    if p < n {
      PrimaryCountAtLeast(value[..n], p);
    } else {
      forall j | 0 <= j < n && value[j].primary
        ensures PrimaryCount(value) >= 2
      {
        PrimaryCountAtLeast(value[..n], j);
      }
    }
  }

  lemma {:induction false} PrimaryCountOne(value: seq<EmailData>) returns (p: nat)
    requires PrimaryCount(value) == 1
    ensures OnePrimaryAt(value, p)
    decreases |value|
  {
    var n := |value| - 1;
    if value[n].primary {
      p := n;
    } else {
      p := PrimaryCountOne(value[..n]);
    }
    PrimaryCountAtLeast(value, p);
  }

  lemma {:induction false} NoPrimary(value: seq<EmailData>)
    requires forall j | 0 <= j < |value| :: !value[j].primary
    ensures PrimaryCount(value) == 0
  {
    if value != [] {
      NoPrimary(value[..|value| - 1]);
    }
  }

  lemma {:induction false} PrimaryIsCounted(value: seq<EmailData>, p: nat)
    requires OnePrimaryAt(value, p)
    ensures PrimaryCount(value) == 1
    decreases |value|
  {
    var n := |value| - 1;
    if p == n {
      NoPrimary(value[..n]);
    } else {
      PrimaryIsCounted(value[..n], p);
    }
  }

  /** The count is one exactly when one entry is primary and no other. */
  lemma PrimaryCountExactly(value: seq<EmailData>)
    ensures PrimaryCount(value) == 1 <==> exists p :: OnePrimaryAt(value, p)
  {
    if PrimaryCount(value) == 1 {
      var p := PrimaryCountOne(value);
    }
    if p :| OnePrimaryAt(value, p) {
      PrimaryIsCounted(value, p);
    }
  }

  function Primaries(value: seq<EmailData>): seq<EmailData> {
    if value == [] then []
    else Primaries(value[..|value| - 1]) + if value[|value| - 1].primary then [value[|value| - 1]] else []
  }

  lemma {:induction false} PrimariesCounted(value: seq<EmailData>)
    ensures |Primaries(value)| == PrimaryCount(value)
    ensures forall d | d in Primaries(value) :: d in value && d.primary
    decreases |value|
  {
    if value != [] {
      PrimariesCounted(value[..|value| - 1]);
      assert value == value[..|value| - 1] + [value[|value| - 1]];
    }
  }

  /** With exactly one primary entry, it is the one the user's main address is taken from. */
  lemma OnlyPrimary(value: seq<EmailData>) returns (p: nat)
    requires PrimaryCount(value) == 1
    ensures OnePrimaryAt(value, p) && Primaries(value) == [value[p]]
  {
    p := PrimaryCountOne(value);
    PrimariesCounted(value);
    var d := Primaries(value)[0];
    assert d in Primaries(value);
    var j :| 0 <= j < |value| && value[j] == d;
    assert j == p;
  }

  /** After a successful request: the requested addresses and the stale ones, the requested primary as main
      address, and it alone primary exactly when it is not repeated and nothing stale is primary. */
  ghost predicate Reconciled(q: Request, before: Table, value: seq<EmailData>, after: Table, email: string, p: nat) {
    && OnePrimaryAt(value, p) && email == value[p].email
    && ExactAddresses(q, before, value, after)
    && (forall k | k in Keys(q, value) ::
          && k in after && Settled(q, before, LastFor(q, value, k), k, after[k])
          && VariantsExactly(q, before, value, k, after[k]))
    && (MyPrimaries(q, after) == {q.collate(email)} <==>
          NotRepeated(q, value, p) && StalePrimaries(q, before, value) == {})
  }

  lemma RowsKept(q: Request, before: Table, value: seq<EmailData>)
    requires CollatesCase(q.collate) && Valid(q, before) && ApplyAll(q, before, value).Ok?
    ensures var t := ApplyAll(q, before, value).table;
            forall k | k in Keys(q, value) :: k in t && k in Pruned(q.me, t, value) && Pruned(q.me, t, value)[k] == t[k]
  {
    AddressesExactly(q, before, value);
    ApplyAllExactly(q, before, value);
    var t := ApplyAll(q, before, value).table;
    forall k | k in Keys(q, value)
      ensures k in t && k in Pruned(q.me, t, value) && Pruned(q.me, t, value)[k] == t[k]
    {
      assert k in Mine(q, Pruned(q.me, t, value));
    }
  }

  lemma ReconciledExactly(q: Request, before: Table, value: seq<EmailData>) returns (p: nat)
    requires CollatesCase(q.collate) && Valid(q, before) && PrimaryCount(value) == 1
    ensures ApplyAll(q, before, value).Failed? <==> exists e :: e in value && Refused(q, before, e)
    ensures Primaries(value) != [] && (ApplyAll(q, before, value).Ok? ==>
              var after := Pruned(q.me, ApplyAll(q, before, value).table, value);
              Valid(q, after) && Reconciled(q, before, value, after, Primaries(value)[0].email, p))
  {
    p := OnlyPrimary(value);
    ApplyAllExactly(q, before, value);
    if ApplyAll(q, before, value).Ok? {
      PrunedIsValid(q, ApplyAll(q, before, value).table, value);
      AddressesExactly(q, before, value);
      OnePrimaryExactly(q, before, value, p);
      VariantsOfAll(q, before, value);
      RowsKept(q, before, value);
    }
  }

  lemma ElementsSnoc(variants: seq<string>, i: nat)
    requires i < |variants|
    ensures Elements(variants[..i + 1]) == Elements(variants[..i]) + {variants[i]}
  {
  }

  class BadgeUser {
    const me: User
    const collate: string -> string
    var table: Table
    var email: string

    constructor (me: User, collate: string -> string, table: Table, email: string)
      ensures this.me == me && this.collate == collate && this.table == table && this.email == email
    {
      this.me, this.collate, this.table, this.email := me, collate, table, email;
    }

    /** Save the row for one entry of the request and add its variants. */
    method SetOne(data: EmailData, allowVerify: bool) returns (outcome: Outcome)
      modifies this
      ensures email == old(email)
      ensures match Apply(Request(me, allowVerify, collate), old(table), data)
              case Ok(t) => outcome == Success && table == t
              case Failed(error) => outcome == Raised(error)
    {
      ghost var q := Request(me, allowVerify, collate);
      var k := collate(data.email);
      if k in table {
        var address := table[k];
        var dirty := false;
        if address.user == me {
          address := address.(primary := data.primary);
          dirty := true;
        } else if !address.verified {
          address := address.(user := me, primary := data.primary);
          address := Saved(address);
          table := table[k := address];
        } else {
          return Raised(InUse);
        }
        if allowVerify && data.verified != address.verified {
          address := address.(verified := data.verified);
          dirty := true;
        }
        if dirty {
          table := table[k := Saved(address)];
        }
      } else {
        table := table[k := Saved(Address(data.email, me, data.primary, false, {}))];
        if allowVerify && data.verified {
          table := table[k := table[k].(verified := true)];
        }
      }
      assert table == old(table)[k := Touched(q, old(table), data)];
      if !table[k].verified {
        return Success;
      }
      outcome := AddVariants(k, data.variants);
    }

    method AddVariants(k: string, variants: seq<string>) returns (outcome: Outcome)
      requires k in table
      modifies this
      ensures email == old(email)
      ensures var row := old(table)[k];
              if VariantsFit(row, variants) then
                outcome == Success && table == old(table)[k := row.(variants := row.variants + Elements(variants))]
              else outcome == Raised(BadVariant)
    {
      ghost var start, row := table, table[k];
      var existing := table[k].variants;
      assert existing + Elements(variants[..0]) == existing;
      for i := 0 to |variants|
        invariant k in table && email == old(email)
        invariant table == start[k := row.(variants := existing + Elements(variants[..i]))]
        invariant VariantsFit(row, variants[..i])
      {
        var variant := variants[i];
        ElementsSnoc(variants, i);
        assert variants[..i + 1] == variants[..i] + [variant];
        if variant !in existing {
          if Lower(table[k].email) != Lower(variant) {
            return Raised(BadVariant);
          }
          assert existing + Elements(variants[..i + 1]) == existing + Elements(variants[..i]) + {variant};
          table := table[k := table[k].(variants := table[k].variants + {variant})];
        } else {
          assert existing + Elements(variants[..i + 1]) == existing + Elements(variants[..i]);
        }
      }
      assert variants[..|variants|] == variants;
      outcome := Success;
    }

    method SetEmailItems(value: seq<EmailData>, allowVerify: bool, privileged: bool) returns (outcome: Outcome)
      modifies this
      ensures outcome.Raised? ==> table == old(table) && email == old(email)
      ensures value == [] && privileged ==>
                && outcome == Success && email == ""
                && table == map k | k in old(table) && old(table)[k].user != me :: old(table)[k]
      ensures outcome == Raised(NoEmail) <==> value == [] && !privileged
      ensures value != [] && PrimaryCount(value) != 1 ==> outcome == Raised(NotOnePrimary)
      ensures outcome == Raised(NotOnePrimary) <==> value != [] && !exists p :: OnePrimaryAt(value, p)
      ensures value != [] && PrimaryCount(value) == 1 ==>
                var q := Request(me, allowVerify, collate);
                match ApplyAll(q, old(table), value)
                case Failed(error) => outcome == Raised(error)
                case Ok(t) =>
                  && outcome == Success && table == Pruned(me, t, value)
                  && |Primaries(value)| == 1 && email == Primaries(value)[0].email
      ensures var q := Request(me, allowVerify, collate);
              CollatesCase(collate) && Valid(q, old(table)) ==>
                && Valid(q, table)
                && (value != [] && PrimaryCount(value) == 1 ==>
                      && (outcome.Raised? <==> exists e :: e in value && Refused(q, old(table), e))
                      && (outcome.Success? ==> exists p :: Reconciled(q, old(table), value, table, email, p)))
    {
      ghost var q := Request(me, allowVerify, collate);
      PrimaryCountExactly(value);
      ApplyErrors(q, table, value);
      if privileged && value == [] {
        table := map k | k in table && table[k].user != me :: table[k];
        email := "";
        return Success;
      }
      if |value| < 1 {
        return Raised(NoEmail);
      }
      if PrimaryCount(value) != 1 {
        return Raised(NotOnePrimary);
      }
      PrimariesCounted(value);
      if CollatesCase(collate) && Valid(q, table) {
        ghost var p := ReconciledExactly(q, table, value);
      }
      var requestedPrimary := Primaries(value)[0];
      var savepoint := table;
      outcome := SetAll(value, allowVerify);
      if outcome.Raised? {
        table := savepoint;
        return;
      }
      table := Prune(table, value);
      email := requestedPrimary.email;
    }

    /** The loop over the entries; a failure leaves the table as far as it got. */
    method SetAll(value: seq<EmailData>, allowVerify: bool) returns (outcome: Outcome)
      modifies this
      ensures email == old(email)
      ensures match ApplyAll(Request(me, allowVerify, collate), old(table), value)
              case Ok(t) => outcome == Success && table == t
              case Failed(error) => outcome == Raised(error)
    {
      ghost var q := Request(me, allowVerify, collate);
      for i := 0 to |value|
        invariant ApplyAll(q, old(table), value[..i]) == Ok(table)
        invariant email == old(email)
      {
        assert value[..i + 1][..i] == value[..i];
        outcome := SetOne(value[i], allowVerify);
        if outcome.Raised? {
          FailsEarly(q, old(table), value, i + 1);
          return;
        }
      }
      assert value[..|value|] == value;
      outcome := Success;
    }

    /** The loop that deletes the user's addresses which the request does not name. */
    method Prune(before: Table, value: seq<EmailData>) returns (after: Table)
      ensures after == Pruned(me, before, value)
    {
      after := before;
      var left := set k | k in before && before[k].user == me;
      ghost var mine := left;
      while left != {}
        invariant left <= mine
        invariant after == map k | k in before
                             && (k in mine && k !in left ==> Lower(before[k].email) in Lowers(value)) :: before[k]
        decreases left
      {
        var k :| k in left;
        if Lower(before[k].email) !in Lowers(value) {
          after := after - {k};
        }
        left := left - {k};
      }
    }
  }

  lemma {:induction false} FailsEarly(q: Request, table: Table, value: seq<EmailData>, i: nat)
    requires i <= |value| && ApplyAll(q, table, value[..i]).Failed?
    ensures ApplyAll(q, table, value) == ApplyAll(q, table, value[..i])
    decreases |value|
  {
    if i == |value| {
      assert value[..i] == value;
    } else {
      var init := value[..|value| - 1];
      assert init[..i] == value[..i];
      FailsEarly(q, table, init, i);
    }
  }
}
