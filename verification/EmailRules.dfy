/** What a request for a user's e-mail addresses does to the address table, entry by entry, and what it comes
    to as a whole.
 */
module EmailRules {
  import opened Basics
  import opened Text

  /** `variants` are other spellings of a verified address. */
  datatype Address = Address(email: string, user: User, primary: bool, verified: bool, variants: set<string>)

  datatype EmailData = EmailData(email: string, primary: bool, verified: bool, variants: seq<string>)

  /** Rows by the form in which the database compares addresses. */
  type Table = map<string, Address>

  datatype Error = NoEmail | NotOnePrimary | InUse | BadVariant

  datatype Result = Ok(table: Table) | Failed(error: Error)

  /** For whom the request is made, whether it may set the verified flag, and how addresses are compared. */
  datatype Request = Request(me: User, allowVerify: bool, collate: string -> string)

  /** Addresses that compare equal differ at most in case. */
  ghost predicate CollatesCase(collate: string -> string) {
    forall a, b :: collate(a) == collate(b) ==> Lower(a) == Lower(b)
  }

  ghost predicate Valid(q: Request, table: Table) {
    forall k | k in table ::
      q.collate(table[k].email) == k && forall v | v in table[k].variants :: Lower(v) == Lower(table[k].email)
  }

  /** Saving an address without variants that is not in lower case adds the lower-case variant. */
  function Saved(row: Address): Address {
    if row.variants == {} && row.email != Lower(row.email) then row.(variants := {Lower(row.email)}) else row
  }

  /** The row for an entry after it was found or created, taken over and verified, but before its variants. */
  function Touched(q: Request, table: Table, e: EmailData): Address {
    var k := q.collate(e.email);
    if k in table then
      var row := Saved(table[k].(user := q.me, primary := e.primary));
      if q.allowVerify then row.(verified := e.verified) else row
    else
      var row := Saved(Address(e.email, q.me, e.primary, false, {}));
      if q.allowVerify && e.verified then row.(verified := true) else row
  }

  predicate TakenByOther(q: Request, table: Table, e: EmailData) {
    var k := q.collate(e.email);
    k in table && table[k].user != q.me && table[k].verified
  }

  function Elements(variants: seq<string>): set<string> {
    set v | v in variants
  }

  /** A variant that is not there yet must be the address in another case. */
  predicate VariantsFit(row: Address, variants: seq<string>) {
    forall v | v in variants && v !in row.variants :: Lower(row.email) == Lower(v)
  }

  function Apply(q: Request, table: Table, e: EmailData): Result {
    if TakenByOther(q, table, e) then Failed(InUse)
    else
      var row := Touched(q, table, e);
      if !row.verified then Ok(table[q.collate(e.email) := row])
      else if !VariantsFit(row, e.variants) then Failed(BadVariant)
      else Ok(table[q.collate(e.email) := row.(variants := row.variants + Elements(e.variants))])
  }

  function ApplyAll(q: Request, table: Table, value: seq<EmailData>): Result {
    if value == [] then Ok(table)
    else
      var before := ApplyAll(q, table, value[..|value| - 1]);
      if before.Failed? then before else Apply(q, before.table, value[|value| - 1])
  }

  function Lowers(value: seq<EmailData>): set<string> {
    set e | e in value :: Lower(e.email)
  }

  /** Addresses of the user that the request does not name, in any case, are deleted. */
  function Pruned(me: User, table: Table, value: seq<EmailData>): Table {
    map k | k in table && (table[k].user == me ==> Lower(table[k].email) in Lowers(value)) :: table[k]
  }

  // ---------- What all entries come to ----------

  function Keys(q: Request, value: seq<EmailData>): set<string> {
    set e | e in value :: q.collate(e.email)
  }

  /** The last entry for a key. */
  function LastFor(q: Request, value: seq<EmailData>, k: string): EmailData
    requires k in Keys(q, value)
  {
    var n := |value| - 1;
    if q.collate(value[n].email) == k then value[n]
    else
      assert value == value[..n] + [value[n]];
      LastFor(q, value[..n], k)
  }

  /** Why an entry makes the request fail, as far as the table before the request tells. */
  predicate Refused(q: Request, table: Table, e: EmailData) {
    var k := q.collate(e.email);
    || (k in table && table[k].user != q.me && table[k].verified)
    || ((if q.allowVerify then e.verified else k in table && table[k].verified)
        && exists v :: v in e.variants && Lower(v) != Lower(e.email))
  }

  /** What a request leaves for an address whose last entry is e. */
  predicate Settled(q: Request, table: Table, e: EmailData, k: string, row: Address) {
    && row.user == q.me
    && row.primary == e.primary
    && row.verified == (if q.allowVerify then e.verified else k in table && table[k].verified)
    && Lower(row.email) == Lower(e.email)
    && (k in table ==> row.email == table[k].email)
    && (k in table && table[k].verified ==> table[k].user == q.me)
  }

  /** The table after all entries, before pruning. */
  ghost predicate Applied(q: Request, table: Table, value: seq<EmailData>, t: Table) {
    && Valid(q, t)
    && t.Keys == table.Keys + Keys(q, value)
    && (forall k | k in table && k !in Keys(q, value) :: t[k] == table[k])
    && (forall k | k in Keys(q, value) :: Settled(q, table, LastFor(q, value, k), k, t[k]))
  }

  lemma TouchedFacts(q: Request, t: Table, e: EmailData)
    ensures var k, row := q.collate(e.email), Touched(q, t, e);
            && row.user == q.me && row.primary == e.primary
            && row.email == (if k in t then t[k].email else e.email)
            && row.verified == (if q.allowVerify then e.verified else k in t && t[k].verified)
            && forall v | v in row.variants :: (k in t && v in t[k].variants) || Lower(v) == Lower(row.email)
  {
  }

  lemma ApplyKeepsValid(q: Request, table: Table, e: EmailData)
    requires CollatesCase(q.collate) && Valid(q, table)
    requires Apply(q, table, e).Ok?
    ensures Valid(q, Apply(q, table, e).table)
  {
    var k, row := q.collate(e.email), Touched(q, table, e);
    TouchedFacts(q, table, e);
    assert q.collate(row.email) == k && forall v | v in row.variants :: Lower(v) == Lower(row.email);
  }

  lemma KeysSnoc(q: Request, value: seq<EmailData>)
    requires value != []
    ensures Keys(q, value) == Keys(q, value[..|value| - 1]) + {q.collate(value[|value| - 1].email)}
  {
  }

  /** A request fails exactly when some entry is refused by the table as it was, and otherwise the table after
      it is given by the last entry for each address. */
  lemma {:induction false} ApplyAllExactly(q: Request, table: Table, value: seq<EmailData>)
    requires CollatesCase(q.collate) && Valid(q, table)
    ensures ApplyAll(q, table, value).Failed? <==> exists e :: e in value && Refused(q, table, e)
    ensures ApplyAll(q, table, value).Ok? ==> Applied(q, table, value, ApplyAll(q, table, value).table)
    decreases |value|
  {
    if value != [] {
      var n := |value| - 1;
      var e, init := value[n], value[..n];
      assert value == init + [e];
      ApplyAllExactly(q, table, init);
      var before := ApplyAll(q, table, init);
      if before.Failed? {
        var f :| f in init && Refused(q, table, f);
        assert f in value;
      } else {
        var k := q.collate(e.email);
        KeysSnoc(q, value);
        RefusedLater(q, table, init, before.table, e);
        if Apply(q, before.table, e).Ok? {
          ApplyKeepsValid(q, before.table, e);
          ApplyOne(q, table, init, before.table, value);
        }
        assert forall f :: f in value <==> f in init || f == e;
      }
    }
  }

  /** Earlier entries do not change whether an entry is refused. */
  lemma RefusedLater(q: Request, table: Table, init: seq<EmailData>, t: Table, e: EmailData)
    requires CollatesCase(q.collate) && Valid(q, table) && Applied(q, table, init, t)
    ensures Apply(q, t, e).Failed? <==> Refused(q, table, e)
  {
    var k := q.collate(e.email);
    TouchedFacts(q, t, e);
    assert k in Keys(q, init) ==> Settled(q, table, LastFor(q, init, k), k, t[k]);
    assert k in t ==> q.collate(t[k].email) == k && Lower(t[k].email) == Lower(e.email);
    assert TakenByOther(q, t, e) <==> TakenByOther(q, table, e);
  }

  lemma ApplySettles(q: Request, table: Table, init: seq<EmailData>, t: Table, e: EmailData)
    requires CollatesCase(q.collate) && Applied(q, table, init, t) && Apply(q, t, e).Ok?
    ensures var k, u := q.collate(e.email), Apply(q, t, e).table;
            u.Keys == t.Keys + {k} && Settled(q, table, e, k, u[k]) && forall j | j in t && j != k :: u[j] == t[j]
  {
    var k := q.collate(e.email);
    TouchedFacts(q, t, e);
    assert k in t ==> q.collate(t[k].email) == q.collate(e.email);
    assert k in Keys(q, init) ==> Settled(q, table, LastFor(q, init, k), k, t[k]);
  }

  lemma ApplyOne(q: Request, table: Table, init: seq<EmailData>, t: Table, value: seq<EmailData>)
    requires CollatesCase(q.collate) && Applied(q, table, init, t)
    requires value != [] && init == value[..|value| - 1]
    requires Apply(q, t, value[|value| - 1]).Ok? && Valid(q, Apply(q, t, value[|value| - 1]).table)
    ensures Applied(q, table, value, Apply(q, t, value[|value| - 1]).table)
  {
    var e := value[|value| - 1];
    var k := q.collate(e.email);
    var u := Apply(q, t, e).table;
    KeysSnoc(q, value);
    ApplySettles(q, table, init, t, e);
    forall j | j in Keys(q, value)
      ensures Settled(q, table, LastFor(q, value, j), j, u[j])
    {
      if j != k {
        assert LastFor(q, value, j) == LastFor(q, init, j) && u[j] == t[j];
      }
    }
  }

  // ---------- Variants ----------

  /** Variants that the entries for k list, as far as those make or leave the address verified. */
  function ListedVariants(q: Request, table: Table, value: seq<EmailData>, k: string): set<string> {
    set e, v | e in value && v in e.variants && q.collate(e.email) == k
               && (if q.allowVerify then e.verified else k in table && table[k].verified) :: v
  }

  /** The variants of a requested address: those it had, those listed, and its lower-case spelling if that is
      another and it had no variant before. */
  ghost predicate VariantsExactly(q: Request, table: Table, value: seq<EmailData>, k: string, row: Address) {
    row.variants
      == (if k in table then table[k].variants else {})
         + ListedVariants(q, table, value, k)
         + (if row.email != Lower(row.email) && (k !in table || table[k].variants == {}) then {Lower(row.email)} else {})
  }

  lemma ListedSnoc(q: Request, table: Table, init: seq<EmailData>, e: EmailData, k: string)
    ensures ListedVariants(q, table, init + [e], k)
         == ListedVariants(q, table, init, k)
            + (if q.collate(e.email) == k && (if q.allowVerify then e.verified else k in table && table[k].verified)
               then Elements(e.variants) else {})
  {
    assert forall f :: f in init + [e] <==> f in init || f == e;
  }

  function LowerSpelling(email: string, had: set<string>): set<string> {
    if email != Lower(email) && had == {} then {Lower(email)} else {}
  }

  /** What one entry does to the variants of its address. */
  lemma AppliedVariants(q: Request, t: Table, e: EmailData)
    requires Apply(q, t, e).Ok?
    ensures var k := q.collate(e.email);
            var had := if k in t then t[k].variants else {};
            && k in Apply(q, t, e).table
            && var row := Apply(q, t, e).table[k];
               && row.email == (if k in t then t[k].email else e.email)
               && row.variants == had + LowerSpelling(row.email, had)
                                  + (if (if q.allowVerify then e.verified else k in t && t[k].verified)
                                     then Elements(e.variants) else {})
  {
  }

  lemma SpellingKept(q: Request, table: Table, value: seq<EmailData>, k: string, row: Address)
    requires VariantsExactly(q, table, value, k, row)
    ensures LowerSpelling(row.email, row.variants) == {}
  {
    if row.email != Lower(row.email) && (k !in table || table[k].variants == {}) {
      assert Lower(row.email) in row.variants;
    }
  }

  /** The entry at hand, for an address that earlier entries have touched. */
  lemma VariantsAgain(q: Request, table: Table, init: seq<EmailData>, t: Table, e: EmailData, k: string)
    requires k == q.collate(e.email) && Apply(q, t, e).Ok? && k in t && VariantsExactly(q, table, init, k, t[k])
    requires !q.allowVerify ==> t[k].verified == (k in table && table[k].verified)
    ensures k in Apply(q, t, e).table && VariantsExactly(q, table, init + [e], k, Apply(q, t, e).table[k])
  {
    ListedSnoc(q, table, init, e, k);
    AppliedVariants(q, t, e);
    SpellingKept(q, table, init, k, t[k]);
  }

  /** The first entry for an address. */
  lemma VariantsFirst(q: Request, table: Table, init: seq<EmailData>, t: Table, e: EmailData, k: string)
    requires k == q.collate(e.email) && Apply(q, t, e).Ok? && k !in Keys(q, init)
    requires (k in t <==> k in table) && (k in table ==> t[k] == table[k])
    ensures k in Apply(q, t, e).table && VariantsExactly(q, table, init + [e], k, Apply(q, t, e).table[k])
  {
    ListedSnoc(q, table, init, e, k);
    assert ListedVariants(q, table, init, k) == {};
    AppliedVariants(q, t, e);
  }

  ghost predicate AllVariants(q: Request, table: Table, value: seq<EmailData>, t: Table) {
    forall k | k in Keys(q, value) :: k in t && VariantsExactly(q, table, value, k, t[k])
  }

  lemma VariantsOthers(
    q: Request, table: Table, init: seq<EmailData>, t: Table, e: EmailData, k: string, row: Address)
    requires VariantsExactly(q, table, init, k, row) && k != q.collate(e.email)
    ensures VariantsExactly(q, table, init + [e], k, row)
  {
    ListedSnoc(q, table, init, e, k);
  }

  lemma {:induction false} VariantsOfAll(q: Request, table: Table, value: seq<EmailData>)
    requires CollatesCase(q.collate) && Valid(q, table) && ApplyAll(q, table, value).Ok?
    ensures AllVariants(q, table, value, ApplyAll(q, table, value).table)
    decreases |value|
  {
    if value != [] {
      var n := |value| - 1;
      var e, init := value[n], value[..n];
      var t := ApplyAll(q, table, init).table;
      assert value == init + [e];
      VariantsOfAll(q, table, init);
      ApplyAllExactly(q, table, init);
      VariantsMore(q, table, init, t, e);
    }
  }

  lemma AppliedRow(q: Request, table: Table, init: seq<EmailData>, t: Table, k: string)
    requires Applied(q, table, init, t)
    ensures if k in Keys(q, init) then
              k in t && (!q.allowVerify ==> t[k].verified == (k in table && table[k].verified))
            else (k in t <==> k in table) && (k in table ==> t[k] == table[k])
  {
    assert k in Keys(q, init) ==> Settled(q, table, LastFor(q, init, k), k, t[k]);
  }

  lemma VariantsMore(q: Request, table: Table, init: seq<EmailData>, t: Table, e: EmailData)
    requires Applied(q, table, init, t) && AllVariants(q, table, init, t) && Apply(q, t, e).Ok?
    ensures AllVariants(q, table, init + [e], Apply(q, t, e).table)
  {
    var j := q.collate(e.email);
    AppliedRow(q, table, init, t, j);
    if j in Keys(q, init) {
      VariantsAgain(q, table, init, t, e, j);
    } else {
      VariantsFirst(q, table, init, t, e, j);
    }
    VariantsRest(q, table, init, t, e);
  }

  lemma VariantsRest(q: Request, table: Table, init: seq<EmailData>, t: Table, e: EmailData)
    requires AllVariants(q, table, init, t) && Apply(q, t, e).Ok?
    ensures forall k | k in Keys(q, init + [e]) && k != q.collate(e.email) ::
              && k in Apply(q, t, e).table
              && VariantsExactly(q, table, init + [e], k, Apply(q, t, e).table[k])
  {
    KeysSnoc(q, init + [e]);
    assert (init + [e])[..|init|] == init;
    forall k | k in Keys(q, init) && k != q.collate(e.email)
      ensures VariantsExactly(q, table, init + [e], k, t[k])
    {
      VariantsOthers(q, table, init, t, e, k, t[k]);
    }
  }

  /** Which of the two errors an entry raises. */
  lemma {:induction false} ApplyErrors(q: Request, table: Table, value: seq<EmailData>)
    ensures ApplyAll(q, table, value).Failed? ==> ApplyAll(q, table, value).error in {InUse, BadVariant}
    decreases |value|
  {
    if value != [] {
      ApplyErrors(q, table, value[..|value| - 1]);
    }
  }

  lemma PrunedIsValid(q: Request, table: Table, value: seq<EmailData>)
    requires Valid(q, table)
    ensures Valid(q, Pruned(q.me, table, value))
  {
  }

  // ---------- The result for the user ----------

  function Mine(q: Request, table: Table): set<string> {
    set k | k in table && table[k].user == q.me
  }

  function MyPrimaries(q: Request, table: Table): set<string> {
    set k | k in table && table[k].user == q.me && table[k].primary
  }

  /** Own addresses the request spells in another case and the database tells apart; they are neither updated
      nor deleted. */
  function Stale(q: Request, table: Table, value: seq<EmailData>): set<string> {
    set k | k in table && table[k].user == q.me && k !in Keys(q, value) && Lower(table[k].email) in Lowers(value)
  }

  ghost predicate OnePrimaryAt(value: seq<EmailData>, p: nat) {
    p < |value| && value[p].primary && forall j | 0 <= j < |value| && value[j].primary :: j == p
  }

  lemma {:induction false} LastForIsIn(q: Request, value: seq<EmailData>, k: string) returns (j: nat)
    requires k in Keys(q, value)
    ensures j < |value| && value[j] == LastFor(q, value, k) && q.collate(value[j].email) == k
    ensures forall i | j < i < |value| :: q.collate(value[i].email) != k
    decreases |value|
  {
    var n := |value| - 1;
    if q.collate(value[n].email) == k {
      j := n;
    } else {
      assert value == value[..n] + [value[n]];
      j := LastForIsIn(q, value[..n], k);
    }
  }

  ghost predicate ExactAddresses(q: Request, table: Table, value: seq<EmailData>, last: Table) {
    && Mine(q, last) == Keys(q, value) + Stale(q, table, value)
    && (forall k | k in table && table[k].verified && k in last :: last[k].user == table[k].user)
    && (forall k | k in table && table[k].user != q.me && (table[k].verified || k !in Keys(q, value)) ::
          k in last && last[k] == table[k])
    && (forall k | k in last && k !in table :: k in Keys(q, value))
    && (forall k | k in Stale(q, table, value) :: last[k] == table[k])
  }

  /** A successful request leaves the user with the requested addresses and the stale ones, touches nothing
      else but unverified addresses it takes over, and never moves a verified address. */
  lemma AddressesExactly(q: Request, table: Table, value: seq<EmailData>)
    requires CollatesCase(q.collate) && Valid(q, table) && ApplyAll(q, table, value).Ok?
    ensures ExactAddresses(q, table, value, Pruned(q.me, ApplyAll(q, table, value).table, value))
  {
    ApplyAllExactly(q, table, value);
    var t := ApplyAll(q, table, value).table;
    var last := Pruned(q.me, t, value);
    forall k | k in Keys(q, value)
      ensures k in last
    {
      var j := LastForIsIn(q, value, k);
      assert value[j] in value;
    }
  }

  ghost predicate NotRepeated(q: Request, value: seq<EmailData>, p: nat)
    requires p < |value|
  {
    forall j | p < j < |value| :: q.collate(value[j].email) != q.collate(value[p].email)
  }

  lemma RequestedPrimary(q: Request, table: Table, value: seq<EmailData>, t: Table, p: nat, k: string)
    requires Applied(q, table, value, t) && OnePrimaryAt(value, p) && k in Keys(q, value)
    ensures t[k].primary <==> k == q.collate(value[p].email) && NotRepeated(q, value, p)
  {
    var j := LastForIsIn(q, value, k);
    assert Settled(q, table, LastFor(q, value, k), k, t[k]);
    if k == q.collate(value[p].email) {
      assert j == p <==> NotRepeated(q, value, p);
    }
  }

  function StalePrimaries(q: Request, table: Table, value: seq<EmailData>): set<string> {
    set k | k in Stale(q, table, value) && table[k].primary
  }

  /** Which addresses of the user are primary in the end. */
  lemma IsPrimary(q: Request, table: Table, value: seq<EmailData>, p: nat, k: string)
    requires CollatesCase(q.collate) && Valid(q, table) && ApplyAll(q, table, value).Ok? && OnePrimaryAt(value, p)
    ensures k in MyPrimaries(q, Pruned(q.me, ApplyAll(q, table, value).table, value))
        <==> k in StalePrimaries(q, table, value) || (k == q.collate(value[p].email) && NotRepeated(q, value, p))
  {
    ApplyAllExactly(q, table, value);
    AddressesExactly(q, table, value);
    var t := ApplyAll(q, table, value).table;
    var last := Pruned(q.me, t, value);
    assert value[p] in value && q.collate(value[p].email) in Keys(q, value);
    if k in Keys(q, value) {
      RequestedPrimary(q, table, value, t, p, k);
      assert k in Mine(q, last);
    } else if k in Stale(q, table, value) {
      assert k in Mine(q, last);
    } else {
      assert k !in Mine(q, last);
    }
  }

  lemma SingletonExactly<T>(s: set<T>, rest: set<T>, x: T, c: bool)
    requires x !in rest && forall k :: k in s <==> k in rest || (k == x && c)
    ensures s == {x} <==> c && rest == {}
  {
  }

  /** Exactly when the user ends with one primary address, the requested one: no later entry repeats it, and no
      stale address is primary. */
  lemma OnePrimaryExactly(q: Request, table: Table, value: seq<EmailData>, p: nat)
    requires CollatesCase(q.collate) && Valid(q, table) && ApplyAll(q, table, value).Ok? && OnePrimaryAt(value, p)
    ensures MyPrimaries(q, Pruned(q.me, ApplyAll(q, table, value).table, value)) == {q.collate(value[p].email)}
        <==> NotRepeated(q, value, p) && StalePrimaries(q, table, value) == {}
  {
    var primaries := MyPrimaries(q, Pruned(q.me, ApplyAll(q, table, value).table, value));
    forall k
      ensures k in primaries <==>
                k in StalePrimaries(q, table, value) || (k == q.collate(value[p].email) && NotRepeated(q, value, p))
    {
      IsPrimary(q, table, value, p, k);
    }
    assert value[p] in value && q.collate(value[p].email) in Keys(q, value);
    SingletonExactly(primaries, StalePrimaries(q, table, value), q.collate(value[p].email), NotRepeated(q, value, p));
  }

  /** The usual case: addresses that differ by more than case, and a database that ignores case. */
  lemma DistinctRequest(q: Request, table: Table, value: seq<EmailData>, p: nat)
    requires q.collate == Lower && Valid(q, table) && ApplyAll(q, table, value).Ok? && OnePrimaryAt(value, p)
    requires forall i, j | 0 <= i < j < |value| :: Lower(value[i].email) != Lower(value[j].email)
    ensures var last := Pruned(q.me, ApplyAll(q, table, value).table, value);
            Mine(q, last) == Keys(q, value) && MyPrimaries(q, last) == {q.collate(value[p].email)}
  {
    assert CollatesCase(q.collate);
    assert Stale(q, table, value) == {} by {
      assert Lowers(value) == Keys(q, value);
      assert forall k | k in table :: q.collate(table[k].email) == k;
    }
    AddressesExactly(q, table, value);
    OnePrimaryExactly(q, table, value, p);
  }

  /** A database that tells case apart: asking for the only address in lower case leaves the old spelling
      behind, still primary. */
  lemma TwoPrimariesExample()
    ensures var q := Request(1, false, s => s);
            var table: Table := map["A" := Address("A", 1, true, true, {})];
            var value := [EmailData("a", true, false, [])];
            && Valid(q, table) && ApplyAll(q, table, value).Ok?
            && MyPrimaries(q, Pruned(q.me, ApplyAll(q, table, value).table, value)) != {"a"}
  {
    var q := Request(1, false, s => s);
    var table: Table := map["A" := Address("A", 1, true, true, {})];
    var e := EmailData("a", true, false, []);
    var value := [e];
    assert Lower("A") == "a" && Lower("a") == "a";
    assert "A"[0] != "a"[0];
    assert forall f | f in value :: f == e && !Refused(q, table, f);
    ApplyAllExactly(q, table, value);
    assert value[0] == e && e in value;
    assert "A" in StalePrimaries(q, table, value);
    OnePrimaryExactly(q, table, value, 0);
  }
}
