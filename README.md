# Bitcoin loan dapp canisters, modelled in Dafny

This project models the two Internet Computer canisters of the Bitcoin loan
dapp. They hold all of its logic.

- **The escrow canister** keeps a map from escrow id to escrow record and an id counter.
  - A borrower opens an escrow that names a lender. It starts as `Pending`.
  - The lender locks it, which stamps the release time.
  - Then either the borrower releases it or the lender refunds it.
  - Every transition checks, in this order: that the escrow exists, then who the caller is, then the status.
  - A failed call changes nothing.
- **The loan backend** has a loans map, a map of user profiles, a per-user index of loan ids and an id counter. It also has a Bitcoin address validator.
  - The validator classifies an address by its prefix.
  - It then checks a byte-length window and an alphabet for that type.
  - For the segwit-style types it also checks the length of the piece after the first `1`.
  - It computes no checksum. Its "bech32" alphabet is all of `[0-9a-z]`.

Files:

- `common.dfy` (`Common`): shared helpers.
  - Rust's `u64` and the wrapping `*id += 1`.
  - Principals, `Option` and `Result<T, String>`.
  - The ascending-key traversal a `StableBTreeMap<u64, _>` iterator performs (`SortedKeys`, `SelectedKeys`, `Select`).
- `text.dfy` (`Text`): the `str` operations the validator uses, over strings of Unicode scalar values.
  - `len()` is a UTF-8 byte count.
  - `char::is_whitespace` and `trim`.
  - `split(char)`, with its inverse `Join`.
- `btc_address.dfy` (`BtcAddress`): `identify_btc_address_type`, `validate_address_by_type` and `validate_btc_address`.
  - Also an independent description (`Accepted`) of the addresses the validator accepts.
  - It is proved to agree with the validator.
- `escrow.dfy` (`EscrowLedger`): the escrow canister.
  - Each update call is a function from the ledger before the call to its result and the ledger after it.
  - The class `EscrowCanister` holds the same state in fields. Its imperative methods are proved to do exactly what those functions say.
- `escrow_lemmas.dfy` (`EscrowProperties`): properties of single calls and of whole sequences of calls.
- `loan_backend.dfy` (`LoanBackend`): the class `LoanCanister`.
  - It has the loans, users and per-user index stores, and the counter.
  - It keeps an invariant: the index agrees with the loans, and every linked address is valid.

`ic_cdk::caller()` and `ic_cdk::api::time()` are method parameters (`caller`, `now`). The `f64` amounts are `real`.

Notes on the code:

- The first id handed out is 1: the counter starts at 0 and is bumped before use.
- `lock_escrow` stamps `release_time` with the current time. `release_escrow` and `refund_escrow` leave it as the lock set it.
- `create_escrow` rejects an address shorter than 26 bytes.
- `create_escrow` does not check the lender's identity at all.
- Each transition checks the caller before the status.
- The collateral and loan amounts are rejected with two separate messages.

## Model

| member | source | states |
|---|---|---|
| Common.WrappingIncrement | src/bitcoin_escrow_canister/src/lib.rs:85-89 | the counter bump yields the old value plus one modulo 2^64 |
| Common.SortedKeys | src/bitcoin_escrow_canister/src/lib.rs:219-220 | the map iterator visits every key exactly once, in strictly ascending order |
| Common.StrictlyIncreasingUnique | src/bitcoin_escrow_canister/src/lib.rs:218-223 | two strictly ascending sequences with the same elements are equal, so a filter over keys in ascending order has only one possible result |
| Common.Select | src/bitcoin_escrow_canister/src/lib.rs:218-223 | filter-then-collect yields exactly the values satisfying the filter, each at the position of its key in ascending key order |
| Text.Utf8Len | src/bitcoin_loan_dapp_backend/src/lib.rs:225 | `len()` counts UTF-8 bytes, between the character count and four times it, equal to it exactly for ASCII text |
| Text.Trim | src/bitcoin_loan_dapp_backend/src/lib.rs:125 | `trim()` is empty exactly when every character is whitespace, and a non-empty result starts and ends with non-whitespace |
| Text.Split | src/bitcoin_loan_dapp_backend/src/lib.rs:272 | `split('1')` yields at least one piece, no piece contains '1', and the first piece is the text before the first '1' |
| Text.SplitJoin | src/bitcoin_loan_dapp_backend/src/lib.rs:272 | joining the pieces with '1' gives back the input, and there are two or more pieces exactly when the input contains '1' |
| Text.AllInMeans | src/bitcoin_loan_dapp_backend/src/lib.rs:247 | `chars().all(..contains(c))` holds exactly when every character is in the alphabet |
| Text.TrimLeavesCompact | src/bitcoin_loan_dapp_backend/src/lib.rs:125 | trimming text with no whitespace leaves it unchanged |
| BtcAddress.IdentifyBtcAddressType | src/bitcoin_loan_dapp_backend/src/lib.rs:182-216 | input that is blank (empty or whitespace only) is classified `Invalid` |
| BtcAddress.IdentifyByPrefix | src/bitcoin_loan_dapp_backend/src/lib.rs:189-215 | the type returned is the one whose prefix the address carries, and `Invalid` exactly when it carries none (including "bc1" followed by anything other than q or p) |
| BtcAddress.PrefixesExclusive | src/bitcoin_loan_dapp_backend/src/lib.rs:190-205 | no address carries two types' prefixes, so the order of the prefix tests does not matter |
| BtcAddress.PrefixIdentifies | src/bitcoin_loan_dapp_backend/src/lib.rs:183-216 | an address carrying a type's prefix is classified as that type; the blank check never overrides a prefix |
| BtcAddress.ValidateAddressByType | src/bitcoin_loan_dapp_backend/src/lib.rs:218-283 | an out-of-window byte length gives the length error whatever the characters; the characters are checked only after it; success implies a valid type, length and alphabet |
| BtcAddress.ValidateBtcAddress | src/bitcoin_loan_dapp_backend/src/lib.rs:148-167 | blank input gives the empty error, a non-blank unclassifiable one the format error, and success implies a classified address |
| BtcAddress.Base58CharsAre | src/bitcoin_loan_dapp_backend/src/lib.rs:247 | the legacy alphabet is the digits 1-9 and the letters other than I, O and l |
| BtcAddress.Bech32CharsAre | src/bitcoin_loan_dapp_backend/src/lib.rs:252 | the segwit alphabet is exactly the ASCII digits and lower-case letters |
| BtcAddress.CharsFitMeans | src/bitcoin_loan_dapp_backend/src/lib.rs:243-255 | the per-type alphabet check accepts exactly Base58 text for the legacy-style types and exactly digits and lower-case letters for the segwit-style ones |
| BtcAddress.SegwitDataPart | src/bitcoin_loan_dapp_backend/src/lib.rs:272-273 | for a "bc1"/"tb1" address the split has a second piece, which is the text between the prefix's '1' and the next '1' |
| BtcAddress.Base58Family | src/bitcoin_loan_dapp_backend/src/lib.rs:219-283 | for the four legacy-style types, the validator accepts exactly the addresses in `Accepted` |
| BtcAddress.SegwitFamily | src/bitcoin_loan_dapp_backend/src/lib.rs:219-283 | for the four segwit-style types, the validator accepts exactly the addresses in `Accepted` |
| BtcAddress.InvalidFamily | src/bitcoin_loan_dapp_backend/src/lib.rs:158-161 | an unclassifiable address is rejected and is not in `Accepted` |
| BtcAddress.ValidateAcceptsExactly | src/bitcoin_loan_dapp_backend/src/lib.rs:148-283 | `validate_btc_address` succeeds if and only if the address is legacy style (26-34 Base58 characters after 1/3/m/n/2), or "bc1q"/"tb1q" with 42-62 characters, or "bc1p"/"tb1p" with 62-64, all in `[0-9a-z]`, with at least six characters (the version letter included) between the prefix's '1' and the next '1' |
| BtcAddress.ValidatedIsAccepted | src/bitcoin_loan_dapp_backend/src/lib.rs:148-283 | every accepted address satisfies the independent description |
| BtcAddress.AcceptedChars | src/bitcoin_loan_dapp_backend/src/lib.rs:243-259 | an address in `Accepted` is whitespace-free ASCII, so its byte length is its character count |
| BtcAddress.AcceptedIsCompact | src/bitcoin_loan_dapp_backend/src/lib.rs:148-283 | an accepted address contains no whitespace and no non-ASCII character, and trimming leaves it unchanged |
| BtcAddress.AcceptedByteLength | src/bitcoin_loan_dapp_backend/src/lib.rs:221-236 | for an accepted address the byte-length window is a character-count window |
| BtcAddress.BlankRejected | src/bitcoin_loan_dapp_backend/src/lib.rs:150-152 | blank input is rejected with "Bitcoin address cannot be empty", so the same check in `link_btc_address` gives the validator's answer |
| BtcAddress.SeparatorPresent | src/bitcoin_loan_dapp_backend/src/lib.rs:263-268 | for an address classified as segwit style the separator check never fails, because the prefix holds a '1' |
| BtcAddress.MissingSeparatorUnreachable | src/bitcoin_loan_dapp_backend/src/lib.rs:266-268 | the "missing separator" error is never returned |
| LoanBackend.LoansOf | src/bitcoin_loan_dapp_backend/src/lib.rs:289-294 | the ids `get_loans` visits are exactly the ids of the owner's loans, ascending |
| LoanBackend.IndexMatchesLoansOf | src/bitcoin_loan_dapp_backend/src/lib.rs:113-118 | on consistent stores, an owner's USER_LOANS entry (empty when absent) is exactly the ascending list of that owner's loan ids |
| LoanBackend.CreateKeepsIndex | src/bitcoin_loan_dapp_backend/src/lib.rs:101-118 | inserting the loan under counter + 1 and appending that id to the owner's list keeps the stores consistent |
| LoanBackend.LoanCanister.constructor | src/bitcoin_loan_dapp_backend/src/lib.rs:72-92 | the stores start empty with the counter at 0, which is consistent |
| LoanBackend.LoanCanister.CreateLoan | src/bitcoin_loan_dapp_backend/src/lib.rs:94-121 | a non-positive amount is rejected and nothing changes; otherwise the id is the old counter plus one (mod 2^64), the loan has the caller as owner, the id is appended to the caller's list, users are untouched, and consistency is kept while the counter has not wrapped |
| LoanBackend.LoanCanister.LinkBtcAddress | src/bitcoin_loan_dapp_backend/src/lib.rs:123-146 | the result is exactly the validator's; on success the caller's profile holds the untrimmed address and no other user changes; on failure nothing changes; stored addresses stay valid |
| LoanBackend.LoanCanister.StoreAddress | src/bitcoin_loan_dapp_backend/src/lib.rs:135-143 | the caller's profile is replaced by one holding the accepted address, nothing else changes, and stored addresses stay valid |
| LoanBackend.LoanCanister.GetLoans | src/bitcoin_loan_dapp_backend/src/lib.rs:285-296 | exactly the caller's loans, each at the position of its id in ascending id order |
| LoanBackend.SelectFollowsIndex | src/bitcoin_loan_dapp_backend/src/lib.rs:285-296 | on consistent stores, `get_loans` returns the loans the USER_LOANS index lists for the caller, in the index's order, with strictly increasing ids |
| LoanBackend.LoanCanister.GetBtcAddress | src/bitcoin_loan_dapp_backend/src/lib.rs:298-306 | the caller's linked address, or None when there is no profile; on consistent stores the address is valid and trim-free |
| EscrowLedger.CreateStep | src/bitcoin_escrow_canister/src/lib.rs:62-108 | rejects non-positive collateral, then non-positive loan, then an address under 26 bytes, each leaving the ledger unchanged; succeeds exactly when all three pass; the new id is the old counter plus one (mod 2^64), and the record is Pending with no release time and the caller as borrower |
| EscrowLedger.LockStep | src/bitcoin_escrow_canister/src/lib.rs:110-140 | not found, then not the lender, then not Pending, each failing without change; succeeds exactly for the lender on a Pending escrow, setting Locked and the release time to now |
| EscrowLedger.ReleaseStep | src/bitcoin_escrow_canister/src/lib.rs:142-171 | not found, then not the borrower, then not Locked, each failing without change; succeeds exactly for the borrower on a Locked escrow, setting Released and keeping every other field |
| EscrowLedger.RefundStep | src/bitcoin_escrow_canister/src/lib.rs:173-202 | not found, then not the lender, then not Locked, each failing without change; succeeds exactly for the lender on a Locked escrow, setting Refunded and keeping every other field |
| EscrowLedger.Lookup | src/bitcoin_escrow_canister/src/lib.rs:204-212 | fails with "Escrow not found" exactly when the id is absent, and otherwise returns the stored record |
| EscrowLedger.EscrowCanister.constructor | src/bitcoin_escrow_canister/src/lib.rs:50-60 | the map starts empty with the counter at 0, which satisfies the ledger invariants |
| EscrowLedger.EscrowCanister.CreateEscrow | src/bitcoin_escrow_canister/src/lib.rs:62-108 | result and new state are those of `CreateStep` on the old state, and the ledger invariants are kept while the counter is below `u64::MAX` |
| EscrowLedger.EscrowCanister.LockEscrow | src/bitcoin_escrow_canister/src/lib.rs:110-140 | result and new state are those of `LockStep` on the old state, and the ledger invariants are kept |
| EscrowLedger.EscrowCanister.ReleaseEscrow | src/bitcoin_escrow_canister/src/lib.rs:142-171 | result and new state are those of `ReleaseStep` on the old state, and the ledger invariants are kept |
| EscrowLedger.EscrowCanister.RefundEscrow | src/bitcoin_escrow_canister/src/lib.rs:173-202 | result and new state are those of `RefundStep` on the old state, and the ledger invariants are kept |
| EscrowLedger.EscrowCanister.GetEscrow | src/bitcoin_escrow_canister/src/lib.rs:204-212 | the lookup of the id in the current map |
| EscrowLedger.SelectByIdAscends | src/bitcoin_escrow_canister/src/lib.rs:214-238 | when every record sits under its own id, the records a query selects come out by strictly ascending id |
| EscrowLedger.EscrowCanister.GetBorrowerEscrows | src/bitcoin_escrow_canister/src/lib.rs:214-225 | exactly the escrows whose borrower is the caller, each at the position of its key in ascending key order; when every record sits under its own id (every reachable state, see `EscrowProperties.RunKeepsKeyed`), the ids strictly increase |
| EscrowLedger.EscrowCanister.GetLenderEscrows | src/bitcoin_escrow_canister/src/lib.rs:227-238 | exactly the escrows whose lender is the caller, each at the position of its key in ascending key order; when every record sits under its own id, the ids strictly increase |
| EscrowProperties.CreateIssuesFreshId | src/bitcoin_escrow_canister/src/lib.rs:85-105 | below `u64::MAX`, a new id is the old counter plus one, above every key in use, so it never overwrites an escrow |
| EscrowProperties.ApplyKeepsValid | src/bitcoin_escrow_canister/src/lib.rs:62-202 | every call keeps records under their own issued ids, keeps "release time set exactly when not Pending", and moves the counter by at most one, never down |
| EscrowProperties.ApplyKeepsKeyed | src/bitcoin_escrow_canister/src/lib.rs:85-105 | every call, a create after the counter wraps included, leaves each record under the id it carries |
| EscrowProperties.RunKeepsKeyed | src/bitcoin_escrow_canister/src/lib.rs:85-105 | across any call sequence, with no bound on the counter, each record stays under the id it carries |
| EscrowProperties.ApplyKeepsEscrow | src/bitcoin_escrow_canister/src/lib.rs:110-202 | every call keeps every existing escrow and its id, parties, address, amounts and creation time, and moves its status at most one edge forward |
| EscrowProperties.TerminalRejectsAll | src/bitcoin_escrow_canister/src/lib.rs:117-199 | on a Released or Refunded escrow, lock, release and refund fail for every caller and change nothing |
| EscrowProperties.SecondReleaseFails | src/bitcoin_escrow_canister/src/lib.rs:156-159 | after a release, a second release and a refund both fail with "Escrow is not in locked state" |
| EscrowProperties.ReleaseKeepsLockTime | src/bitcoin_escrow_canister/src/lib.rs:129-165 | a lock stamps the release time with the lock's time; the borrower's release then succeeds and keeps that stamp |
| EscrowProperties.RunKeepsEscrow | src/bitcoin_escrow_canister/src/lib.rs:110-202 | across any call sequence not exhausting the counter, the invariants hold, the escrow stays with unchanged terms, and its status only moves forward: never back to Pending, never out of Released or Refunded |
| EscrowProperties.RunIssuesFreshIds | src/bitcoin_escrow_canister/src/lib.rs:85-89 | across such a sequence the ids handed out strictly increase and lie between the starting and the final counter |
| EscrowProperties.IssuedIdsAreFresh | src/bitcoin_escrow_canister/src/lib.rs:85-105 | no id handed out during such a sequence was in use when it started |
| EscrowProperties.FirstCreate | src/bitcoin_escrow_canister/src/lib.rs:62-108 | from a fresh canister the first `create_escrow` returns id 1 and stores a Pending escrow without a release time under it |
| EscrowProperties.PendingCallerErrors | src/bitcoin_escrow_canister/src/lib.rs:110-171 | on a pending escrow the borrower's lock and the lender's release get the caller errors rather than the status errors, and the borrower's release gets "Escrow is not in locked state" |
| EscrowProperties.LockReleaseRefund | src/bitcoin_escrow_canister/src/lib.rs:110-202 | the lender's lock sets Locked and stamps the lock's time; the borrower's release then sets Released and keeps the stamp; a refund afterwards fails with "Escrow is not in locked state" |
| EscrowLedger.PutKeepsValid | src/bitcoin_escrow_canister/src/lib.rs:98-99 | storing a record under its own issued id, with a release time exactly when it is not Pending, keeps the ledger invariants |

## Left out

- The `f64` amounts are modelled as `real`. A NaN amount passes both canisters' `<= 0.0` guards in the code, and the model has no NaN. Infinities and rounding are not modelled either.
- Candid encoding, `Storable`/`BoundedStorable` and the stable-memory maps are library code. The maps are Dafny `map`s.
  - The encoded-size bounds are therefore not modelled: 1024 bytes per escrow, loan and id list, and 512 per profile. An insert past a bound traps, which would roll the call back. This can happen with a very long collateral address, or with an owner who has very many loans.
- Canister upgrades are not modelled. The counters live on the heap while the maps are stable, so an upgrade resets the counters.
- Traps and the rollback of a trapped call are not modelled.
- `health`, the Candid export hooks and the whole front end are not modelled.
- `ic_cdk::caller()` and `ic_cdk::api::time()` are parameters. The model makes no assumption about their values, for example it does not assume that time increases.
- The id counters wrap around at `u64::MAX` as a release build does. The freshness, ordering and consistency properties are proved only while the counter stays below `u64::MAX`.
  - LoanBackend.LoanCanister.CreateLoan: keeps consistency only while the counter is below `u64::MAX`. At the wrap, an existing loan can be overwritten and an index can list an id twice.
  - EscrowProperties.RunKeepsEscrow: holds only for call sequences that cannot take the counter to `u64::MAX`.
- `Accepted` describes what the validator accepts. It is not BIP 173 or BIP 350: no checksum, and the alphabet is all of `[0-9a-z]`.
- The legacy alphabet literal is written as the concatenation of its six runs of consecutive characters. It spells the same string.
