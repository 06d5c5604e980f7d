/** The two-factor request handlers on the user record. */
module TwoFactor {
  import opened Basics
  import opened TwoFactorRules

  function Without(codes: multiset<Hash>, used: bool, h: Hash): multiset<Hash> {
    if used then codes - multiset{h} else codes
  }

  function With(codes: multiset<Hash>, used: bool, h: Hash): multiset<Hash> {
    if used then codes + multiset{h} else codes
  }

  class UserRecord {
    var totpSecret: Option<string>
    var totpEnabled: bool
    var totpConfirmed: bool
    var backupCodes: Option<seq<Hash>>
    /** Codes issued by the last confirm, and those accepted since; none when two-factor login is off. */
    ghost var issued: multiset<Hash>
    ghost var accepted: multiset<Hash>

    constructor ()
      ensures Valid() && State() == Account(None, false, false, None)
    {
      totpSecret, totpEnabled, totpConfirmed, backupCodes := None, false, false, None;
      issued, accepted := multiset{}, multiset{};
    }

    function State(): Account
      reads this
    {
      Account(totpSecret, totpEnabled, totpConfirmed, backupCodes)
    }

    /** Enabled, confirmed and secret agree, and every issued code is left or was accepted, as often as issued. */
    ghost predicate Valid()
      reads this
    {
      Coherent(State()) && issued == Remaining(State()) + accepted
    }

    /** TwoFactorSetupView.post */
    method Setup(secret: string) returns (ok: bool)
      requires Valid() && secret != ""
      modifies this
      ensures Valid() && issued == old(issued) && accepted == old(accepted)
      ensures ok <==> !old(totpEnabled)
      ensures ok ==> totpSecret == Some(secret) && !totpConfirmed
      ensures !ok ==> State() == old(State())
      ensures totpEnabled == old(totpEnabled) && Remaining(State()) == Remaining(old(State()))
      ensures State() == AfterSetup(old(State()), secret)
    {
      if totpEnabled {
        return false;
      }
      totpSecret := Some(secret);
      totpConfirmed := false;
      totpEnabled := false;
      ok := true;
    }

    /** TwoFactorConfirmView.post, with the fresh backup codes as hashes */
    method Confirm(codeValid: bool, hashes: seq<Hash>) returns (ok: bool)
      requires Valid()
      modifies this
      ensures Valid()
      ensures ok <==> old(totpSecret).Some? && old(totpSecret).value != "" && codeValid
      ensures totpSecret == old(totpSecret)
      ensures ok ==> totpEnabled && totpConfirmed && issued == multiset(hashes) == Remaining(State()) && accepted == multiset{}
      ensures !ok ==> State() == old(State()) && issued == old(issued) && accepted == old(accepted)
      ensures State() == AfterConfirm(old(State()), codeValid, hashes)
    {
      if totpSecret.None? || totpSecret.value == "" {
        return false;
      }
      if !codeValid {
        return false;
      }
      totpEnabled := true;
      totpConfirmed := true;
      backupCodes := Some(hashes);
      issued, accepted := multiset(hashes), multiset{};
      ok := true;
    }

    /** TwoFactorVerifyView.post, undisturbed by other requests: the session must exist, and then either the
        one-time password is right or a backup code is used up. */
    method Verify(hasSession: bool, codeValid: bool, codeHash: Hash) returns (ok: bool)
      requires Valid()
      modifies this
      ensures Valid() && issued == old(issued)
      ensures var byPassword := old(totpSecret).Some? && old(totpSecret).value != "" && codeValid;
              var byBackup := hasSession && !byPassword && codeHash in Remaining(old(State()));
              && (ok <==> hasSession && (byPassword || codeHash in Remaining(old(State()))))
              && Remaining(State()) == Without(Remaining(old(State())), byBackup, codeHash)
              && accepted == With(old(accepted), byBackup, codeHash)
      ensures totpEnabled == old(totpEnabled) && totpSecret == old(totpSecret)
    {
      if !hasSession {
        return false;
      }
      ok := totpSecret.Some? && totpSecret.value != "" && codeValid;
      if !ok {
        ok := UseBackup(codeHash);
      }
    }

    /** The locked section of TwoFactorVerifyView.post: exactly one occurrence of a remaining code is used up,
        so that no code is accepted more often than it was issued. */
    method UseBackup(codeHash: Hash) returns (works: bool)
      requires Valid()
      modifies this`backupCodes, this`accepted
      ensures Valid()
      ensures works <==> codeHash in Remaining(old(State()))
      ensures Remaining(State()) == Without(Remaining(old(State())), works, codeHash)
      ensures accepted == With(old(accepted), works, codeHash)
      ensures accepted[codeHash] <= issued[codeHash]
      ensures State() == AfterUse(old(State()), codeHash)
    {
      works := false;
      if backupCodes.Some? {
        var hashed := backupCodes.value;
        if codeHash in hashed {
          RemoveFirstTakesOne(hashed, codeHash);
          hashed := RemoveFirst(hashed, codeHash);
          backupCodes := Some(hashed);
          accepted := accepted + multiset{codeHash};
          works := true;
        }
      }
    }

    /** TwoFactorDisableView.post */
    method Disable(passwordValid: bool) returns (ok: bool)
      requires Valid()
      modifies this
      ensures Valid()
      ensures ok <==> passwordValid && old(totpEnabled)
      ensures ok ==> !totpEnabled && totpSecret == None && Remaining(State()) == issued == accepted == multiset{}
      ensures !ok ==> State() == old(State()) && issued == old(issued) && accepted == old(accepted)
      ensures State() == AfterDisable(old(State()), passwordValid)
    {
      if !passwordValid {
        return false;
      }
      if !totpEnabled {
        return false;
      }
      totpSecret := None;
      totpEnabled := false;
      totpConfirmed := false;
      backupCodes := None;
      issued, accepted := multiset{}, multiset{};
      ok := true;
    }
  }
}
