/**
 * The one-time-code verification store, as values: the codes it issues, the challenge
 * kept per action key, and the four-way decision taken when a code is submitted.
 * Time is a plain integer count of microseconds (the resolution of Python's `datetime`);
 * the clock reading and the random number are inputs.
 */
module Otp {
  import opened Text

  const OtpExpiryMinutes: nat := 5
  const MicrosPerMinute: nat := 60 * 1000000
  /** `timedelta(minutes=OTP_EXPIRY_MINUTES)` in microseconds. */
  const OtpLifetime: nat := OtpExpiryMinutes * MicrosPerMinute
  /** `random.randint(0, 999999)` draws from 0..MaxOtp inclusive. */
  const MaxOtp: nat := 999999
  const OtpLength: nat := 6

  // ---------------------------------------------------------------- codes

  function DigitChar(d: nat): (c: char)
    requires d < 10
    ensures IsDigit(c) && c as int - '0' as int == d
  {
    ('0' as int + d) as char
  }

  /** `f"{n:0{width}d}"` for an `n` with at most `width` digits: the digits of `n`, padded with zeros on the left. */
  function ZeroPadded(n: nat, width: nat): (s: string)
    requires n < Pow10(width)
    ensures |s| == width && AllDigits(s) && DecimalValue(s) == n
  {
    if width == 0 then []
    else
      var s := ZeroPadded(n / 10, width - 1) + [DigitChar(n % 10)];
      assert s[..|s| - 1] == ZeroPadded(n / 10, width - 1);
      s
  }

  /** `generate_otp`: the draw `n`, written as exactly six zero-padded decimal digits. */
  function GenerateOtp(n: nat): (code: string)
    requires n <= MaxOtp
    ensures |code| == OtpLength && AllDigits(code) && DecimalValue(code) == n
  {
    assert Pow10(OtpLength) == 1000000;
    ZeroPadded(n, OtpLength)
  }

  /** Distinct draws give distinct codes. */
  lemma GenerateOtpInjective(m: nat, n: nat)
    requires m <= MaxOtp && n <= MaxOtp
    ensures GenerateOtp(m) == GenerateOtp(n) <==> m == n
  {
  }

  /** Reading a digit string back through `ZeroPadded` at its own width gives the string again. */
  lemma {:induction false} ZeroPaddedOfValue(s: string)
    requires AllDigits(s)
    ensures ZeroPadded(DecimalValue(s), |s|) == s
  {
    if s != [] {
      var p := s[..|s| - 1];
      var d := s[|s| - 1] as int - '0' as int;
      LastDigit(DecimalValue(p), d);
      ZeroPaddedOfValue(p);
      assert DigitChar(d) == s[|s| - 1];
      assert s == p + [s[|s| - 1]];
    }
  }

  lemma LastDigit(x: nat, d: nat)
    requires d < 10
    ensures (x * 10 + d) / 10 == x && (x * 10 + d) % 10 == d
  {
  }

  /** Every six-digit string is the code of exactly one draw: the code space is all of 000000..999999. */
  lemma EverySixDigitStringIsACode(code: string)
    requires |code| == OtpLength && AllDigits(code)
    ensures DecimalValue(code) <= MaxOtp && GenerateOtp(DecimalValue(code)) == code
  {
    assert Pow10(OtpLength) == 1000000;
    ZeroPaddedOfValue(code);
  }

  // ---------------------------------------------------------------- the store

  /** One entry of the store: `{"otp": ..., "expiry": ..., "email": ...}`. */
  datatype Challenge = Challenge(otp: string, expiry: int, email: string)

  /** The challenges held in the session, by action key. */
  type Store = map<string, Challenge>

  /** The four answers of `verify_otp_for`. */
  datatype VerifyOutcome = NoOtpRequested | OtpExpired | OtpVerified | IncorrectOtp

  /** What `set_otp_for(key, email)` stores: a fresh code for the draw `n`, valid for five minutes, replacing any earlier one. */
  function Issue(store: Store, key: string, email: string, n: nat, now: int): (s: Store)
    requires n <= MaxOtp
    ensures key in s && s[key].email == email && s[key].expiry == now + OtpLifetime
    ensures s.Keys == store.Keys + {key}
  {
    store[key := Challenge(GenerateOtp(n), now + OtpLifetime, email)]
  }

  /**
   * `verify_otp_for(key, code)` at time `now`: the answer and the store it leaves.
   * Expiry is tested before the code; an expired or matched entry is removed.
   */
  function Verify(store: Store, key: string, code: string, now: int): (res: (VerifyOutcome, Store))
    ensures res.1.Keys <= store.Keys
    ensures res.0 == OtpVerified ==> key in store && code == store[key].otp && now <= store[key].expiry
    ensures res.0 == OtpVerified ==> res.1 == store - {key}
  {
    if key !in store then (NoOtpRequested, store)
    else if now > store[key].expiry then (OtpExpired, store - {key})
    else if code == store[key].otp then (OtpVerified, store - {key})
    else (IncorrectOtp, store)
  }

  // ---------------------------------------------------------------- one call

  /** Issuing stores a six-digit code for the draw, the given email and an expiry five minutes on; other keys keep their entries. */
  lemma IssueStoresFreshChallenge(store: Store, key: string, email: string, n: nat, now: int)
    requires n <= MaxOtp
    ensures var s := Issue(store, key, email, n, now);
      && key in s
      && |s[key].otp| == OtpLength && AllDigits(s[key].otp) && DecimalValue(s[key].otp) == n
      && s[key].email == email && s[key].expiry == now + OtpLifetime
      && s.Keys == store.Keys + {key}
      && forall k :: k in store && k != key ==> s[k] == store[k]
  {
  }

  /** Without an entry, and with a wrong code before expiry, verification fails and the store is untouched. */
  lemma FailureWithoutConsumption(store: Store, key: string, code: string, now: int)
    ensures key !in store ==> Verify(store, key, code, now) == (NoOtpRequested, store)
    ensures key in store && now <= store[key].expiry && code != store[key].otp
      ==> Verify(store, key, code, now) == (IncorrectOtp, store)
  {
  }

  /** Once the expiry has passed the entry is dropped and the answer is OtpExpired, even for the right code. */
  lemma ExpiryBeforeCode(store: Store, key: string, now: int)
    requires key in store && now > store[key].expiry
    ensures Verify(store, key, store[key].otp, now) == (OtpExpired, store - {key})
  {
  }

  /** Verification succeeds exactly for the stored code before expiry, and success consumes the entry. */
  lemma SuccessConsumes(store: Store, key: string, code: string, now: int)
    ensures Verify(store, key, code, now).0 == OtpVerified
      <==> key in store && now <= store[key].expiry && code == store[key].otp
    ensures Verify(store, key, code, now).0 == OtpVerified
      ==> Verify(store, key, code, now).1 == store - {key}
  {
  }

  /** The entry of one key is all verification looks at or changes. */
  lemma VerifyTouchesOnlyItsKey(store: Store, key: string, code: string, now: int)
    ensures var s := Verify(store, key, code, now).1;
      && s.Keys <= store.Keys
      && (forall k :: k in store && k != key ==> k in s && s[k] == store[k])
  {
  }

  /** The email stored with a challenge plays no part in its verification. */
  lemma VerifyIgnoresBoundEmail(store: Store, key: string, c: Challenge, other: string, code: string, now: int)
    ensures Verify(store[key := c], key, code, now).0 == Verify(store[key := c.(email := other)], key, code, now).0
  {
  }

  // ---------------------------------------------------------------- several calls

  /** A submission of `code` at time `now`. */
  datatype Attempt = Attempt(code: string, now: int)

  /** The number of successful verifications in a run of attempts against one key, with no code issued in between. */
  function Successes(store: Store, key: string, attempts: seq<Attempt>): nat
  {
    if attempts == [] then 0
    else
      var (o, next) := Verify(store, key, attempts[0].code, attempts[0].now);
      (if o == OtpVerified then 1 else 0) + Successes(next, key, attempts[1..])
  }

  /** Without an entry, no attempt can succeed. */
  lemma {:induction false} NoEntryNoSuccess(store: Store, key: string, attempts: seq<Attempt>)
    requires key !in store
    ensures Successes(store, key, attempts) == 0
  {
    if attempts != [] {
      NoEntryNoSuccess(store, key, attempts[1..]);
    }
  }

  /** Single use: however many attempts follow one issue, at most one of them succeeds. */
  lemma {:induction false} AtMostOneSuccess(store: Store, key: string, attempts: seq<Attempt>)
    ensures Successes(store, key, attempts) <= 1
  {
    if attempts != [] {
      var (o, next) := Verify(store, key, attempts[0].code, attempts[0].now);
      if o == OtpVerified {
        NoEntryNoSuccess(next, key, attempts[1..]);
      } else {
        AtMostOneSuccess(next, key, attempts[1..]);
      }
    }
  }

  /** A replay of a code that succeeded fails as if none had been requested. */
  lemma ReplayFails(store: Store, key: string, code: string, now: int, later: int)
    requires Verify(store, key, code, now).0 == OtpVerified
    ensures Verify(Verify(store, key, code, now).1, key, code, later).0 == NoOtpRequested
  {
  }

  /** Attempts that all come after the expiry never succeed, whatever codes they carry. */
  lemma {:induction false} LateAttemptsFail(store: Store, key: string, attempts: seq<Attempt>)
    requires key in store
    requires forall i :: 0 <= i < |attempts| ==> attempts[i].now > store[key].expiry
    ensures Successes(store, key, attempts) == 0
  {
    if attempts != [] {
      NoEntryNoSuccess(store - {key}, key, attempts[1..]);
    }
  }

  /** Wrong guesses before expiry leave the entry in place, so the right code still works until the expiry. */
  lemma {:induction false} RetryAfterMismatch(store: Store, key: string, wrong: seq<Attempt>, now: int)
    requires key in store && now <= store[key].expiry
    requires forall i :: 0 <= i < |wrong| ==> wrong[i].now <= store[key].expiry && wrong[i].code != store[key].otp
    ensures Successes(store, key, wrong + [Attempt(store[key].otp, now)]) == 1
  {
    if wrong == [] {
      assert wrong + [Attempt(store[key].otp, now)] == [Attempt(store[key].otp, now)];
    } else {
      assert (wrong + [Attempt(store[key].otp, now)])[1..] == wrong[1..] + [Attempt(store[key].otp, now)];
      RetryAfterMismatch(store, key, wrong[1..], now);
    }
  }
}
