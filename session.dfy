/**
 * The per-browser session state that carries email verification: the challenge store and
 * the "verified email" flags, updated in place by the OTP buttons of the donor and the
 * request views, plus the creation gate that reads a flag.
 */
module Gate {
  import opened Text
  import opened Validators
  import opened Otp

  /** Session keys of the two flows. */
  const DonorOtpKey := "donor_reg_otp"
  const DonorFlagKey := "donor_reg_verified_email"
  const RequestOtpKey := "req_reg_otp"
  const RequestFlagKey := "req_reg_verified_email"

  /** What `set_otp_for` and its button report. */
  datatype SendOutcome = InvalidEmail | OtpSent | DeliveryFailed

  /** What a "Verify OTP" button reports. */
  datatype ConfirmOutcome = EmailMissing | Checked(result: VerifyOutcome)

  /**
   * The creation gate: the flag for `flagKey` is set, is not empty, and equals the email
   * currently entered in the OTP field once that is stripped.
   */
  predicate Admits(verified: map<string, string>, flagKey: string, entered: string): (ok: bool)
    ensures ok ==> Strip(entered) != "" && flagKey in verified
  {
    flagKey in verified && verified[flagKey] != "" && verified[flagKey] == Strip(entered)
  }

  /** A flag just set for the entered email opens the gate, provided that email is not blank. */
  lemma ConfirmedEmailAdmits(verified: map<string, string>, flagKey: string, entered: string)
    requires Strip(entered) != ""
    ensures Admits(verified[flagKey := Strip(entered)], flagKey, entered)
  {
  }

  /** Once the flag is cleared the gate stays shut, whatever is entered: one verification, one creation. */
  lemma ClearedFlagRejects(verified: map<string, string>, flagKey: string, entered: string)
    ensures !Admits(verified - {flagKey}, flagKey, entered)
  {
  }

  /** Changing the entered email after verifying makes the verification stale. */
  lemma StaleVerificationRejected(verified: map<string, string>, flagKey: string, entered: string, now: string)
    requires flagKey in verified && verified[flagKey] == Strip(entered)
    requires Strip(now) != Strip(entered)
    ensures !Admits(verified, flagKey, now)
  {
  }

  /**
   * The "Verify OTP" button as the code has it: with a non-blank entered email, the stripped
   * code is verified and, on success, the flag is set to the stripped email in the field now,
   * whatever email the code was sent to.
   */
  function ConfirmAsWritten(challenges: Store, verified: map<string, string>, key: string, flagKey: string,
                            entered: string, code: string, now: int): (res: (ConfirmOutcome, Store, map<string, string>))
    ensures Strip(entered) == "" <==> res.0 == EmailMissing
    ensures res.0 == EmailMissing ==> res.1 == challenges && res.2 == verified
    ensures res.0 != EmailMissing ==> (res.0.result, res.1) == Verify(challenges, key, Strip(code), now)
    ensures res.0 == Checked(OtpVerified) <==>
      Strip(entered) != "" && key in challenges && now <= challenges[key].expiry && Strip(code) == challenges[key].otp
    ensures res.0 == Checked(OtpVerified) ==> res.2 == verified[flagKey := Strip(entered)]
    ensures res.0 == Checked(OtpVerified) ==> Admits(res.2, flagKey, entered)
    ensures res.0 != Checked(OtpVerified) ==> res.2 == verified
  {
    var e := Strip(entered);
    if e == "" then (EmailMissing, challenges, verified)
    else
      var (r, s) := Verify(challenges, key, Strip(code), now);
      (Checked(r), s, if r == OtpVerified then verified[flagKey := e] else verified)
  }

  /**
   * The "Verify OTP" button with the flag bound to the challenge: on success the flag holds
   * the email the verified code was issued for.
   */
  function Confirm(challenges: Store, verified: map<string, string>, key: string, flagKey: string,
                   entered: string, code: string, now: int): (res: (ConfirmOutcome, Store, map<string, string>))
    ensures res.0 == Checked(OtpVerified) ==> key in challenges && flagKey in res.2 && res.2[flagKey] == challenges[key].email
  {
    var e := Strip(entered);
    if e == "" then (EmailMissing, challenges, verified)
    else
      var (r, s) := Verify(challenges, key, Strip(code), now);
      (Checked(r), s, if r == OtpVerified then verified[flagKey := challenges[key].email] else verified)
  }

  /**
   * Confirming leaves the flags alone unless the code is verified; then exactly `flagKey` is
   * set, to the email the consumed challenge was issued for. A blank entered email stops
   * everything before the store is consulted.
   */
  lemma ConfirmBindsIssuedEmail(challenges: Store, verified: map<string, string>, key: string, flagKey: string,
                                entered: string, code: string, now: int)
    ensures var (o, s, v) := Confirm(challenges, verified, key, flagKey, entered, code, now);
      && (Strip(entered) == "" <==> o == EmailMissing)
      && (o == EmailMissing ==> s == challenges && v == verified)
      && (o == Checked(OtpVerified) <==>
            Strip(entered) != "" && key in challenges && now <= challenges[key].expiry && Strip(code) == challenges[key].otp)
      && (o == Checked(OtpVerified) ==> s == challenges - {key} && v == verified[flagKey := challenges[key].email])
      && (o != Checked(OtpVerified) ==> v == verified)
  {
  }

  /**
   * After a successful confirmation, the gate admits exactly the entries that strip to the
   * email the code was sent to (that email being stripped and non-blank, as the send
   * button makes it).
   */
  lemma ConfirmedIssuedEmailAdmits(challenges: Store, verified: map<string, string>, key: string, flagKey: string,
                                   entered: string, code: string, now: int, later: string)
    requires Confirm(challenges, verified, key, flagKey, entered, code, now).0 == Checked(OtpVerified)
    requires challenges[key].email != ""
    ensures Admits(Confirm(challenges, verified, key, flagKey, entered, code, now).2, flagKey, later)
      <==> Strip(later) == challenges[key].email
  {
  }

  /**
   * The as-written button verifies an email no code was sent to: confirming a live code while
   * the field holds any other non-blank email sets the flag to that email and opens the gate
   * for it, where the bound confirmation keeps the gate shut.
   */
  lemma AsWrittenVerifiesUnsentEmail(challenges: Store, verified: map<string, string>, key: string, flagKey: string,
                                     entered: string, code: string, now: int)
    requires key in challenges && now <= challenges[key].expiry && Strip(code) == challenges[key].otp
    requires Strip(entered) != "" && Strip(entered) != challenges[key].email
    ensures var w := ConfirmAsWritten(challenges, verified, key, flagKey, entered, code, now);
      w.0 == Checked(OtpVerified) && Admits(w.2, flagKey, entered)
    ensures var c := Confirm(challenges, verified, key, flagKey, entered, code, now);
      c.0 == Checked(OtpVerified) && !Admits(c.2, flagKey, entered)
  {
  }

  class Session {
    /** The `st.session_state[action_key]` entries written by `set_otp_for`. */
    var challenges: Store
    /** The `st.session_state["..._verified_email"]` flags. */
    var verified: map<string, string>

    constructor ()
      ensures challenges == map[] && verified == map[]
    {
      challenges := map[];
      verified := map[];
    }

    /**
     * `set_otp_for(key, email)` with draw `n`, clock reading `now`, and `delivered` the
     * transport's answer. The challenge is stored before sending, so it stays whatever the answer.
     */
    method SetOtpFor(key: string, email: string, n: nat, now: int, delivered: bool) returns (o: SendOutcome)
      requires n <= MaxOtp
      modifies this
      ensures challenges == Issue(old(challenges), key, email, n, now)
      ensures verified == old(verified)
      ensures o == if delivered then OtpSent else DeliveryFailed
    {
      var otp := GenerateOtp(n);
      var expiry := now + OtpLifetime;
      challenges := challenges[key := Challenge(otp, expiry, email)];
      if delivered {
        o := OtpSent;
      } else {
        o := DeliveryFailed;
      }
    }

    /** `verify_otp_for(key, code)` at time `now`. */
    method VerifyOtpFor(key: string, code: string, now: int) returns (o: VerifyOutcome)
      modifies this
      ensures (o, challenges) == Verify(old(challenges), key, code, now)
      ensures verified == old(verified)
    {
      if key !in challenges {
        return NoOtpRequested;
      }
      var info := challenges[key];
      if now > info.expiry {
        challenges := challenges - {key};
        return OtpExpired;
      }
      if code == info.otp {
        challenges := challenges - {key};
        return OtpVerified;
      }
      o := IncorrectOtp;
    }

    /** The "Send OTP" button: the stripped entered email must pass `valid_email` before a code is issued. */
    method SendOtp(key: string, entered: string, n: nat, now: int, delivered: bool) returns (o: SendOutcome)
      requires n <= MaxOtp
      modifies this
      ensures !ValidEmail(Strip(entered)) ==> o == InvalidEmail && challenges == old(challenges)
      ensures ValidEmail(Strip(entered)) ==>
        && challenges == Issue(old(challenges), key, Strip(entered), n, now)
        && o == (if delivered then OtpSent else DeliveryFailed)
      ensures verified == old(verified)
    {
      var e := Strip(entered);
      if !ValidEmail(e) {
        o := InvalidEmail;
      } else {
        o := SetOtpFor(key, e, n, now, delivered);
      }
    }

    /**
     * The "Verify OTP" button as the code has it: on success the flag becomes the stripped
     * email in the field now, whatever email the code was issued for.
     */
    method ConfirmOtp(key: string, flagKey: string, entered: string, code: string, now: int)
      returns (o: ConfirmOutcome)
      modifies this
      ensures (o, challenges, verified) == ConfirmAsWritten(old(challenges), old(verified), key, flagKey, entered, code, now)
    {
      var e := Strip(entered);
      if e == "" {
        return EmailMissing;
      }
      var r := VerifyOtpFor(key, Strip(code), now);
      if r == OtpVerified {
        verified := verified[flagKey := e];
      }
      o := Checked(r);
    }

    /**
     * The corrected "Verify OTP" button: the flag is bound to the email the source stores
     * with the challenge, so only the email the code was sent to passes the gate afterwards.
     */
    method ConfirmOtpBound(key: string, flagKey: string, entered: string, code: string, now: int)
      returns (o: ConfirmOutcome)
      modifies this
      ensures (o, challenges, verified) == Confirm(old(challenges), old(verified), key, flagKey, entered, code, now)
    {
      var e := Strip(entered);
      if e == "" {
        return EmailMissing;
      }
      var bound := if key in challenges then challenges[key].email else "";
      var r := VerifyOtpFor(key, Strip(code), now);
      if r == OtpVerified {
        verified := verified[flagKey := bound];
      }
      o := Checked(r);
    }

    /** Clears a flag after the creation it allowed; absent flags are left absent. */
    method ConsumeFlag(flagKey: string)
      modifies this
      ensures verified == old(verified) - {flagKey}
      ensures challenges == old(challenges)
      ensures forall e :: !Admits(verified, flagKey, e)
    {
      if flagKey in verified {
        verified := verified - {flagKey};
      }
    }
  }
}
