/** Two-factor state of one account under any interleaving of requests. A verify request takes several steps;
    only its use of a backup code is atomic.
 */
module TwoFactorRules {
  import opened Basics

  type Hash = nat

  datatype Account = Account(secret: Option<string>, enabled: bool, confirmed: bool, backup: Option<seq<Hash>>)

  /** Where a verify request stands: it holds a login session, has deleted the session's token, has failed the
      one-time password, or is answered. */
  datatype Stage = HasSession | TokenDeleted | NeedsBackup | Answered(accepted: bool)

  datatype Server = Server(account: Account, tokens: set<string>, requests: map<nat, Stage>)

  datatype Step =
    | Login(token: string)
    | Setup(secret: string)
    | Confirm(codeValid: bool, hashes: seq<Hash>)
    | Disable(passwordValid: bool)
    | Fetch(id: nat, token: string)
    | DeleteToken(id: nat, token: string)
    | CheckPassword(id: nat, codeValid: bool)
    | UseBackup(id: nat, hash: Hash)

  /** list.remove: the first occurrence goes. */
  function RemoveFirst(hashes: seq<Hash>, h: Hash): seq<Hash>
    requires h in hashes
  {
    if hashes[0] == h then hashes[1..] else [hashes[0]] + RemoveFirst(hashes[1..], h)
  }

  lemma {:induction false} RemoveFirstTakesOne(hashes: seq<Hash>, h: Hash)
    requires h in hashes
    ensures multiset(RemoveFirst(hashes, h)) + multiset{h} == multiset(hashes)
  {
    assert hashes == [hashes[0]] + hashes[1..];
    if hashes[0] != h {
      RemoveFirstTakesOne(hashes[1..], h);
    }
  }

  // ---------- Account changes ----------

  function AfterSetup(a: Account, secret: string): Account {
    if a.enabled then a else a.(secret := Some(secret), confirmed := false, enabled := false)
  }

  predicate ConfirmWorks(a: Account, codeValid: bool) {
    a.secret.Some? && a.secret.value != "" && codeValid
  }

  function AfterConfirm(a: Account, codeValid: bool, hashes: seq<Hash>): Account {
    if ConfirmWorks(a, codeValid) then a.(enabled := true, confirmed := true, backup := Some(hashes)) else a
  }

  predicate DisableWorks(a: Account, passwordValid: bool) {
    passwordValid && a.enabled
  }

  function AfterDisable(a: Account, passwordValid: bool): Account {
    if DisableWorks(a, passwordValid) then Account(None, false, false, None) else a
  }

  predicate BackupAccepts(a: Account, h: Hash) {
    a.backup.Some? && h in a.backup.value
  }

  function AfterUse(a: Account, h: Hash): Account {
    if BackupAccepts(a, h) then a.(backup := Some(RemoveFirst(a.backup.value, h))) else a
  }

  // ---------- Steps ----------

  ghost predicate Next(s: Server, step: Step, t: Server) {
    match step
    case Login(token) => t == s.(tokens := s.tokens + {token})
    case Setup(secret) => secret != "" && t == s.(account := AfterSetup(s.account, secret))
    case Confirm(codeValid, hashes) => t == s.(account := AfterConfirm(s.account, codeValid, hashes))
    case Disable(passwordValid) => t == s.(account := AfterDisable(s.account, passwordValid))
    case Fetch(id, token) =>
      && id !in s.requests
      && t == s.(requests := s.requests[id := if token in s.tokens then HasSession else Answered(false)])
    case DeleteToken(id, token) =>
      && id in s.requests && s.requests[id] == HasSession
      && t == s.(tokens := s.tokens - {token}, requests := s.requests[id := TokenDeleted])
    case CheckPassword(id, codeValid) =>
      && id in s.requests && s.requests[id] == TokenDeleted
      && var valid := s.account.secret.Some? && s.account.secret.value != "" && codeValid;
         t == s.(requests := s.requests[id := if valid then Answered(true) else NeedsBackup])
    case UseBackup(id, h) =>
      && id in s.requests && s.requests[id] == NeedsBackup
      && t == s.(account := AfterUse(s.account, h),
                 requests := s.requests[id := Answered(BackupAccepts(s.account, h))])
  }

  /** Enabled and confirmed go together and need a secret; backup codes exist exactly while enabled. */
  predicate Coherent(a: Account) {
    && a.enabled == a.confirmed
    && (a.enabled ==> a.secret.Some? && a.secret.value != "")
    && (a.backup.Some? <==> a.enabled)
  }

  // ---------- Codes issued and accepted ----------

  datatype Ledger = Ledger(issued: multiset<Hash>, accepted: multiset<Hash>)

  /** Codes issued by the last confirm and those accepted since; a disable ends the account of them. */
  function Record(ledger: Ledger, s: Server, step: Step): Ledger {
    match step
    case Confirm(codeValid, hashes) =>
      if ConfirmWorks(s.account, codeValid) then Ledger(multiset(hashes), multiset{}) else ledger
    case Disable(passwordValid) =>
      if DisableWorks(s.account, passwordValid) then Ledger(multiset{}, multiset{}) else ledger
    case UseBackup(_, h) =>
      if BackupAccepts(s.account, h) then ledger.(accepted := ledger.accepted + multiset{h}) else ledger
    case _ => ledger
  }

  function Remaining(a: Account): multiset<Hash> {
    if a.backup.Some? then multiset(a.backup.value) else multiset{}
  }

  ghost predicate Conserved(s: Server, ledger: Ledger) {
    Coherent(s.account) && ledger.issued == Remaining(s.account) + ledger.accepted
  }

  lemma StepConserves(s: Server, ledger: Ledger, step: Step, t: Server)
    requires Conserved(s, ledger) && Next(s, step, t)
    ensures Conserved(t, Record(ledger, s, step))
  {
    match step
    case UseBackup(_, h) =>
      if BackupAccepts(s.account, h) {
        RemoveFirstTakesOne(s.account.backup.value, h);
      }
    case _ =>
  }

  ghost predicate Run(servers: seq<Server>, steps: seq<Step>) {
    && |servers| == |steps| + 1
    && forall k | 0 <= k < |steps| :: Next(servers[k], steps[k], servers[k + 1])
  }

  function Recorded(ledger: Ledger, servers: seq<Server>, steps: seq<Step>): Ledger
    requires |servers| == |steps| + 1
  {
    if steps == [] then ledger
    else
      var k := |steps| - 1;
      Record(Recorded(ledger, servers[..k + 1], steps[..k]), servers[k], steps[k])
  }

  /** Over every interleaving, the issued codes are the remaining ones and the accepted ones, and the flags
      stay coherent. */
  lemma {:induction false} RunsConserve(servers: seq<Server>, steps: seq<Step>, ledger: Ledger)
    requires Run(servers, steps) && Conserved(servers[0], ledger)
    ensures Conserved(servers[|steps|], Recorded(ledger, servers, steps))
    decreases |steps|
  {
    if steps != [] {
      var k := |steps| - 1;
      RunsConserve(servers[..k + 1], steps[..k], ledger);
      StepConserves(servers[k], Recorded(ledger, servers[..k + 1], steps[..k]), steps[k], servers[k + 1]);
    }
  }

  /** Acceptances of a hash by concurrent requests in a stretch of a run. */
  function Acceptances(servers: seq<Server>, steps: seq<Step>, h: Hash): nat
    requires |servers| == |steps| + 1
  {
    if steps == [] then 0
    else
      var k := |steps| - 1;
      Acceptances(servers[..k + 1], steps[..k], h) + Accepts(servers[k], steps[k], h)
  }

  predicate NoNewCodes(steps: seq<Step>) {
    forall step | step in steps :: !step.Confirm? && !step.Disable?
  }

  function Accepts(s: Server, step: Step, h: Hash): nat {
    if step.UseBackup? && step.hash == h && BackupAccepts(s.account, h) then 1 else 0
  }

  lemma AcceptanceRecorded(ledger: Ledger, s: Server, step: Step, h: Hash)
    requires !step.Confirm? && !step.Disable?
    ensures Record(ledger, s, step).issued == ledger.issued
    ensures Record(ledger, s, step).accepted[h] == ledger.accepted[h] + Accepts(s, step, h)
  {
  }

  lemma {:induction false} AcceptancesRecorded(servers: seq<Server>, steps: seq<Step>, ledger: Ledger, h: Hash)
    requires |servers| == |steps| + 1 && NoNewCodes(steps)
    ensures Recorded(ledger, servers, steps).issued == ledger.issued
    ensures Recorded(ledger, servers, steps).accepted[h] == ledger.accepted[h] + Acceptances(servers, steps, h)
    decreases |steps|
  {
    if steps != [] {
      var k := |steps| - 1;
      assert steps[k] in steps && forall step | step in steps[..k] :: step in steps;
      AcceptancesRecorded(servers[..k + 1], steps[..k], ledger, h);
      AcceptanceRecorded(Recorded(ledger, servers[..k + 1], steps[..k]), servers[k], steps[k], h);
    }
  }

  /** Between a confirm and the next confirm or disable, a code that was issued once is accepted at most once,
      however many requests present it at the same time; one that was not issued never. */
  lemma CodeAcceptedAtMostAsIssued(
    servers: seq<Server>, steps: seq<Step>, hashes: seq<Hash>, h: Hash)
    requires Run(servers, steps) && NoNewCodes(steps)
    requires Coherent(servers[0].account) && servers[0].account.backup == Some(hashes)
    ensures Acceptances(servers, steps, h) <= multiset(hashes)[h]
  {
    var ledger := Ledger(multiset(hashes), multiset{});
    RunsConserve(servers, steps, ledger);
    AcceptancesRecorded(servers, steps, ledger, h);
    assert Recorded(ledger, servers, steps).accepted <= multiset(hashes);
  }
}
