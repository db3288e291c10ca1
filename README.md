# Blood donation and emergency help system: a verified model of its core

The system keeps these tables:
- donors;
- blood banks;
- per-bank blood inventory;
- donations;
- patient requests.

Operators of a web front end update them, and this project models the logic behind that front end in Dafny. It has four parts.

- **One-time codes** (`otp.dfy`). Six-digit codes are issued per action key and stored with an expiry five minutes on. Submitting a code takes one of four decisions: no code requested, expired, verified, or incorrect. An expired or verified entry is removed; an incorrect guess leaves it.
- **Verified-email gate** (`session.dfy`). The browser session holds the code store and one "verified email" flag per flow. The send and verify buttons update them in place. Creating a request, or adding a new donor, goes ahead only when the flag equals the stripped email currently entered. The flag is cleared after the insert.
- **Suggestion and assignment** (`allocation.dfy`, `registry.dfy`). For a pending request, the inventory rows of the exact blood group holding enough units are ranked by squared distance between their bank and the request. The head of a stable sort is suggested, so on ties the first row in table order wins. Only when no row qualifies are the donors of the exact group ranked the same way. Assigning a bank marks the request Assigned and withdraws the units from that (bank, group) stock. Assigning a donor marks it Assigned and leaves the stock alone.
- **Table updates** (`registry.dfy`, `inventory.dfy`):
  - saving banks and donors;
  - logging a donation, which raises the (bank, donor's group) stock or creates its row, and stamps the donor's last donation date;
  - deleting a donation, which never corrects the stock;
  - marking a request fulfilled, whatever its status.

Supporting modules:
- `text.dfy`: Python's `str.strip()` over its Unicode whitespace set, and decimal digit strings.
- `validators.dfy`: the phone and email regular expressions, read with `re.match` semantics.
- `records.dfy`: the row types.

Each mutating part is a class: `Gate.Session` holds the session state and `Registry.Database` the tables. Their methods are proved against pure functions (`Verify`, `Issue`, `ConfirmAsWritten`, `Restock`, `Withdraw`, `Suggest`), and most properties are lemmas about those functions. `Database.Valid()` is preserved by every method. It requires:
- ids that are positive, below their AUTOINCREMENT counter, and increasing along the donor table;
- one inventory row per (bank, group);
- no negative stock;
- every inventory row to name an existing bank.

The clock reading, the random draw and the mail transport's answer are method parameters. Time is an integer number of microseconds.

The model follows the code, including in these points where a reader might expect otherwise:
- Ties in the ranking go to the first row the query returns, not to the lowest id.
- Assignment re-checks nothing at commit time: there is no stale-candidate outcome.
- Marking a missing request fulfilled is a silent no-op.
- No code path writes a `Cancelled` status, so the status type has only Pending, Assigned and Fulfilled.
- A new request stores the stripped OTP email. The form's own "Contact Email" field is read but never stored.
- A new donor stores the form's email field, which is validated but not tied to the verified email.

The verify buttons (app.py:326-337, 514-524) record whatever email is in the field when the code is accepted. `set_otp_for` stores the email each code was sent to (app.py:191), but nothing ever reads it. The buttons also report "OTP verified for " + the field's email (app.py:335, 522), as if that email had been checked. `Gate.Session.ConfirmOtp` models the buttons as written, and `Database.SaveDonor` and `Database.CreateRequest` read the flags it sets. The discrepancy and a corrected variant, `Gate.Session.ConfirmOtpBound`, are under Findings.

## Model

| member | source | states |
|---|---|---|
| Text.IsSpace | app.py:315 | ASCII blank, tab, newline and carriage return are whitespace; digits, `@` and `.` are not (the full set is Python's `str.isspace`) |
| Text.Strip | app.py:315 | the result is a slice of the input; everything cut before and after it is whitespace; the slice neither starts nor ends with whitespace |
| Text.StripUnique | app.py:315 | any slice with that property is exactly the strip, so the contract determines the result |
| Text.StripOfUnpadded | app.py:327 | a string without surrounding whitespace is unchanged by stripping |
| Text.StripIdempotent | app.py:357 | stripping twice equals stripping once, so comparing a stripped flag with a stripped entry is stable |
| Validators.ValidPhone | app.py:131-132 | `re.match(r"^[0-9]{10}$", p)`: an accepted phone has ten characters, or eleven ending in a newline |
| Validators.ValidPhoneIsTenDigits | app.py:131-132 | the phone check accepts exactly ten ASCII digits, optionally followed by one final newline (`$` semantics) |
| Validators.PhoneRejectsPadding | app.py:131-132 | a leading or trailing blank, or a second newline, is rejected: nothing strips the phone first |
| Validators.ValidEmail | app.py:134-135 | `re.match` of the email pattern: an accepted email has at least five characters (one per run, `@` and `.`) |
| Validators.FirstAt | app.py:134-135 | the position of the first `@`, with no `@` before it |
| Validators.ValidEmailIsPatternMatch | app.py:134-135 | the email check holds exactly when the three `[^@]+` runs of the pattern can be laid over a prefix of the input |
| Validators.EmailAnchoredAtStartOnly | app.py:134-135 | for every valid email `e` and every text `t`, `e + t` is valid: anything, `@` included, may follow a matching prefix |
| Validators.EmailNeedsThreeRuns | app.py:134-135 | for every string: one starting with `@` (empty local part) is rejected, and so is one with no `.` after its first `@` |
| Validators.EmailDotBeforeNextAt | app.py:134-135 | every valid email has a `.` after its first `@`, with no `@` between them or just after it, and with a character on each side |
| Validators.EmailEdgeExamples | app.py:134-135 | examples: `@b.c`, `a@.c`, `a@bc.` and `a@b@c.d` are rejected |
| Otp.ZeroPadded | app.py:186 | `{n:06d}` padding: exactly `width` digits whose decimal value is `n` |
| Otp.GenerateOtp | app.py:185-186 | a draw in 0..999999 becomes six ASCII digits denoting the draw |
| Otp.GenerateOtpInjective | app.py:185-186 | distinct draws give distinct codes, and equal draws equal codes |
| Otp.EverySixDigitStringIsACode | app.py:185-186 | every six-digit string is the code of exactly one draw |
| Otp.Issue | app.py:188-191 | the key then holds the email and an expiry five minutes on, and exactly that key is added to the store |
| Otp.Verify | app.py:200-210 | no key is ever added; success means the stored, unexpired code was given, and removes that entry |
| Otp.IssueStoresFreshChallenge | app.py:188-191 | issuing overwrites the key's entry with a six-digit code for the draw, the email and expiry now + 5 minutes; other keys are unchanged |
| Otp.FailureWithoutConsumption | app.py:200-203 | with no entry the answer is "no OTP requested"; an unexpired wrong code gives "incorrect OTP"; the store is unchanged in both cases |
| Otp.ExpiryBeforeCode | app.py:204-206 | past the expiry, even the right code gives "expired" and the entry is removed |
| Otp.SuccessConsumes | app.py:207-209 | success holds exactly for the stored code at or before expiry, and removes the entry |
| Otp.VerifyTouchesOnlyItsKey | app.py:200-210 | verification never adds an entry and leaves every other key's entry as it was |
| Otp.VerifyIgnoresBoundEmail | app.py:200-210 | the email stored with a challenge plays no part in verifying it |
| Otp.NoEntryNoSuccess | app.py:201-203 | no sequence of attempts against a missing entry succeeds |
| Otp.AtMostOneSuccess | app.py:205-209 | single use: among any attempts after one issue, at most one succeeds |
| Otp.ReplayFails | app.py:201-209 | replaying a code that just succeeded gives "no OTP requested" |
| Otp.LateAttemptsFail | app.py:204-206 | attempts that all come after the expiry never succeed |
| Otp.RetryAfterMismatch | app.py:207-210 | wrong guesses before expiry keep the entry, so the right code still succeeds once |
| Gate.Admits | app.py:357 | the gate opens only for a set flag and a non-blank stripped entry |
| Gate.ConfirmedEmailAdmits | app.py:357 | a flag just set to the stripped entered (non-blank) email opens the gate |
| Gate.ClearedFlagRejects | app.py:379-380 | once the flag is removed, no entered email passes the gate |
| Gate.StaleVerificationRejected | app.py:540 | changing the entered email after verifying shuts the gate |
| Gate.ConfirmAsWritten | app.py:326-337 | the verify button as written: a blank stripped entry gives "provide email first", changing nothing; otherwise the outcome and store are `Verify` of the stripped code; success holds exactly for a live stored code; on success only `flagKey` is set, to the stripped email now entered, which then passes the gate; otherwise the flags are unchanged |
| Gate.Confirm | app.py:326-337 | the corrected button: on success the flag holds the email stored with the consumed challenge |
| Gate.ConfirmBindsIssuedEmail | app.py:514-524 | a blank entry is refused before the store is consulted; success holds exactly for the live stored code, consumes it and sets only `flagKey`, to the issued email; otherwise the flags are unchanged |
| Gate.ConfirmedIssuedEmailAdmits | app.py:521 | after a successful confirmation the gate admits exactly the entries that strip to the email the code was sent to |
| Gate.AsWrittenVerifiesUnsentEmail | app.py:334 | confirming a live code while another email is entered opens the gate for that email as written, but not with the bound flag |
| Gate.Session.SetOtpFor | app.py:188-198 | the store becomes `Issue(...)` of the old one whatever the transport answers; the answer is reported |
| Gate.Session.VerifyOtpFor | app.py:200-210 | the answer and the new store are `Verify(...)` of the old store; the flags are untouched |
| Gate.Session.SendOtp | app.py:314-323 | a stripped entry failing the email check is refused with the store unchanged; otherwise a code is issued to the stripped entry |
| Gate.Session.ConfirmOtp | app.py:326-337 | the button as written: the outcome, store and flags are `ConfirmAsWritten(...)` of the old ones |
| Gate.Session.ConfirmOtpBound | app.py:514-524 | the corrected button: the outcome, store and flags are `Confirm(...)` of the old ones |
| Gate.Session.ConsumeFlag | app.py:546-547 | exactly the flag is removed, the store is unchanged, and afterwards no entry passes the gate |
| Inventory.UnitsAt | app.py:468 | with one row per pair, the units of a row's pair are that row's units |
| Inventory.Restock | app.py:468-472 | an existing pair's rows gain the units and the date; a new pair gets one appended row; one row per pair is kept |
| Inventory.RestockUnits | app.py:468-472 | restocking adds the units to that pair, and every other pair keeps its units |
| Inventory.RestockKeepsNonNegative | app.py:470 | adding a non-negative amount keeps every row non-negative |
| Inventory.Withdraw | app.py:567 | every row of the pair loses the units, with `LastUpdated` untouched; other rows are unchanged |
| Inventory.WithdrawKeepsUnique | app.py:567 | withdrawing keeps one row per pair |
| Inventory.WithdrawUnits | app.py:567 | the pair loses the units if some row holds it; every other pair keeps its units |
| Inventory.WithdrawFromRow | app.py:565-567 | withdrawing no more than a row holds keeps every row non-negative and changes that row alone, by exactly the units |
| Allocation.Dist2 | app.py:561 | the squared distance is non-negative |
| Allocation.NearestIndex | app.py:562-563 | the index of the head of the stable sort on the keys: a minimum, before every other minimum |
| Allocation.FirstMinimumUnique | app.py:562-563 | that index is unique, so the suggestion is determined by the keys |
| Allocation.QualifyingRows | app.py:556-558 | exactly the rows of the group with enough units and an existing bank, in table order |
| Allocation.BankDistances | app.py:560-561 | one key per returned row |
| Allocation.MatchingDonors | app.py:571 | exactly the donors of the requested group, in table order |
| Allocation.DonorDistances | app.py:573-574 | one key per returned donor |
| Allocation.Suggest | app.py:556-575 | its properties are proved in `SuggestIsNearest` and `SuggestedRowQualifies` |
| Allocation.SuggestIsNearest | app.py:556-578 | a bank row is suggested iff some row qualifies, and it is the nearest qualifying row (first among equals); a donor iff no row qualifies and some donor has the group, the nearest such (first among equals) |
| Allocation.SuggestedRowQualifies | app.py:563-567 | the suggested row is one the query returns, and the suggestion names its bank |
| Allocation.NearestRowIsNearestBank | app.py:559-563 | the head of the sorted bank rows beats or ties every qualifying row |
| Allocation.NearestIndexIsNearestDonor | app.py:572-575 | the head of the sorted donors beats or ties every donor of the group |
| Allocation.NearerBankWins | app.py:556-563 | example: with stocked banks at (0, 0) and (10, 10) and a request at (1, 1), the bank at (0, 0) is suggested |
| Allocation.DonorFallbackExample | app.py:569-575 | example: with the only bank row one unit short, the single donor of the group is suggested |
| Registry.FindDonor | app.py:467 | the first row with the id, found exactly when a row has it |
| Registry.RestockStaysWithin | app.py:468-472 | restocking an existing bank keeps every inventory row naming an existing bank |
| Registry.Database.constructor | app.py:33-99 | all tables empty, every counter at 1, the invariant established |
| Registry.Database.SaveBank | app.py:423-434 | a missing required field changes nothing; a selected bank is replaced in place, or nothing happens if it is gone; otherwise a bank is inserted under the next id; the invariant holds; every AUTOINCREMENT counter it does not advance stays as it was |
| Registry.Database.SaveDonor | app.py:353-380 | a new donor stops at the gate unless the flag matches; then come the field, phone and email checks in that order; an edit replaces the donor's row; an add appends under the next id and clears the flag; the other tables are unchanged; every AUTOINCREMENT counter it does not advance stays as it was |
| Registry.Database.UpdateDonor | app.py:370-373 | every row with the id is replaced, the others are kept |
| Registry.Database.InsertDonor | app.py:374-377 | the row is appended under the next id |
| Registry.Database.LogDonation | app.py:462-473 | a donation row under the next id; the donor's last donation date stamped; the inventory `Restock`ed for (bank, donor's group); nothing else changes |
| Registry.Database.InsertDonation | app.py:465 | the donation is stored under the next id |
| Registry.Database.StampLastDonation | app.py:466 | every row with the id gets the date, and nothing else changes |
| Registry.Database.AddStock | app.py:467-472 | the inventory becomes `Restock` of the old one, and the invariant holds |
| Registry.Database.DeleteDonation | app.py:485-490 | it deletes iff the id is positive and the PIN matches, and never touches the inventory; every AUTOINCREMENT counter it does not advance stays as it was |
| Registry.Database.CreateRequest | app.py:537-547 | refused unless the flag matches; otherwise a Pending, unassigned request carrying the stripped OTP email is inserted and the flag is removed, so no second creation passes; every AUTOINCREMENT counter it does not advance stays as it was |
| Registry.Database.SuggestFor | app.py:556-575 | the computed suggestion is `Suggest` of the current tables |
| Registry.Database.NearestBankOf | app.py:559-567 | with some bank row qualifying, the head of the sorted rows is `Suggest` of the tables |
| Registry.Database.NearestDonorOf | app.py:569-578 | with no bank row qualifying, the head of the sorted donors, or nothing, is `Suggest` of the tables |
| Registry.Database.BankDistancesOf | app.py:560-561 | the loop builds exactly the bank keys |
| Registry.Database.DonorDistancesOf | app.py:573-574 | the loop builds exactly the donor keys |
| Registry.Database.AssignSuggested | app.py:549-579 | a request that is not Pending is not listed and nothing changes; otherwise the outcome follows the suggestion: a bank assigns and withdraws the units from that pair, a donor assigns and leaves the inventory; the invariant, and so non-negative stock, holds; every AUTOINCREMENT counter it does not advance stays as it was |
| Registry.Database.AssignBank | app.py:565-567 | the request gets the bank and Assigned; the inventory becomes `Withdraw` of the old one and stays valid |
| Registry.Database.AssignDonor | app.py:577-578 | the request gets the donor and Assigned |
| Registry.Database.MarkFulfilled | app.py:586-591 | it is accepted iff the id is positive; an existing request becomes Fulfilled whatever its status, and a missing one changes nothing; every AUTOINCREMENT counter it does not advance stays as it was |

## Left out

- The page rendering and the Streamlit rerun cycle are not modelled: forms, tables, maps, selectors and messages are presentation. The session dictionary is the `Session` class, and each button press is one method call.
- The SQLite plumbing (`get_conn`, `run_write`, `fetch_all`, `fetch_one`, `ensure_schema`; app.py:28-124) is replaced by in-memory sequences and maps. The schema does not make (BankID, BloodGroup) unique. The model keeps that as part of `Valid()`, and donation logging maintains it.
- Result order of the two suggestion queries: they have no `ORDER BY`, and the model takes them in table insertion order. That order decides ties.
- Mail sending and its configuration (app.py:145-182) are network and file I/O, so the transport's answer is a boolean parameter.
- `random.randint` and `datetime.now()` are inputs: the draw and the clock reading.
- Allocation.Dist2: coordinates are exact reals, not floats, and are always present. A NULL coordinate would raise at app.py:561 and app.py:574.
- Registry.Database.AssignSuggested: the model computes the suggestion from the tables at the moment of the click, as a rerun does. The race between two operators has no commit-time check in the source and none is added. The stock can therefore go negative only under concurrency, which the model does not have.
- Registry.Database.LogDonation: it requires an existing donor and bank, because the form only offers rows from those tables. A row deleted between rendering and submitting is not modelled.
- Registry.Database.CreateRequest: it requires 1..10 units because the input widget bounds them.
- The delete operations for donors, banks and requests, and the database reset (app.py:384-391, 436-443, 593-600, 632-643), are plain deletes behind the constant PIN. Only the donation delete is modelled, for its stated effect on the inventory.
- The dashboard aggregates and `days_since` (app.py:137-142, 213-243) depend on the wall clock and on `strptime`.
- The donor search filters (app.py:249-265) and page defaults (app.py:287-303) are presentation only.
- The CSV export and database download (app.py:613-627) are a formatter of arbitrary values with no escaping.
- insert_sample_data.py, create_tables.py and check_db.py are fixed SQL scripts and a table viewer.

## Findings

| source | as written | input that shows it | evidently intended | confidence | as-written member | corrected member |
|---|---|---|---|---|---|---|
| app.py:326-337 | on a verified code, the flag is set to the email in the OTP field at the moment "Verify" is pressed, and the email stored with the challenge (app.py:191) is never read; the request flow at app.py:514-524 does the same | send a code to `a@b.c`, change the field to `x@y.z`, enter the code: the flag becomes `x@y.z`, and a request is created under an email that received no code | the flag holds the email the code was issued for, so only a verified email passes the gate | medium, not executed | Gate.AsWrittenVerifiesUnsentEmail | Gate.ConfirmBindsIssuedEmail |

`Gate.ConfirmAsWritten` is the button as written, and `Gate.Session.ConfirmOtp` implements it. Under `Gate.AsWrittenVerifiesUnsentEmail`, any live code confirmed while another email is entered sets the flag to that email. The intent is read from the source itself: app.py:191 stores the email with each code, and app.py:335 and 522 report the email as verified. `Gate.Confirm`, which `Gate.Session.ConfirmOtpBound` implements, binds the flag to the challenge's email. `Gate.ConfirmBindsIssuedEmail` and `Gate.ConfirmedIssuedEmailAdmits` prove that only the email the code was sent to then passes the gate. The registry's creation methods read the session's flags, so they work with either button.
