# SecureBank kernels, modelled and proved in Dafny

The repository is a set of Python services around a few small kernels whose correctness ranges over every
input or every run. Each kernel is a module here. Code that changes state is a class whose methods are proved
against specification functions; protocols with several parties are machines over their steps; the theorems
are about those functions and machines, over all inputs, all runs and all interleavings.

| module | what it models |
|---|---|
| `Text`, `Decimal`, `Json` | Python strings as sequences of code points, numerals, and the canonical JSON printer (`sort_keys=True`, compact separators, `ensure_ascii`) with the reader |
| `Grammar` | the grammar of RFC 8259, and that the reader reads exactly its texts |
| `Envelope` | signed message envelopes: `envelope` and `open_envelope` |
| `Consumer` | the consuming loop: fetch, hand over, commit the offset, crash and restart |
| `BellLapadula` | the read and write rules, and the flow of information they allow over whole runs |
| `Iban` | ISO 13616-1 check digits by MOD 97-10 of ISO/IEC 7064 |
| `Ledger`, `AccountService` | credits and debits under a row lock with idempotency keys: all interleavings with crashes, and one call at a time |
| `Fraud` | velocity windows in a pruned sorted set, and the z-score over a capped list |
| `Sessions`, `Refresh`, `Auth` | sliding sessions, rotating refresh tokens, and the token-minting handlers over both |
| `Audit` | the hash-chained audit log |
| `Jwks`, `Lockout` | the public-key cache, and the failed-login counter of a user row |

Clocks, random draws, policy decisions, user rows and replies from other services are parameters. The MAC and
the hash are arbitrary functions (to 32 bytes, and to hex digits): nothing else is assumed of them, and a theorem
that needs them to be injective instead concludes "equal, or here are two different texts with the same value".
Encryption is an ideal cipher: decryption succeeds exactly on what was sealed under the same key; and only the
pre-auth tokens that were issued verify as such. Money is in whole paisa; amounts in the fraud features are real
numbers.

## Where the code and its promises differ

Each of these comes with inputs at which the promise fails and a theorem that says exactly when it is kept.

- `envelope`/`open_envelope`: data survives the round trip exactly when no string or key in it spells a code
  point above U+FFFF as two surrogates (`Envelope.RoundTripExactly`); `Envelope.SplitPairIsLost` is an input
  that does not survive.
- `open_envelope` compares the version with `!=`, so a JSON `true` passes as version 1: a clean signed message is
  accepted exactly when its version is 1 or true and it has data (`Envelope.SignedOpensExactly`, with
  `Envelope.TrueVersionIsAccepted` the case of true; over all texts, `Envelope.AcceptedExactly`).
- The audit chain: two records hash the same text exactly when they are equal but for the spelling of code
  points above U+FFFF (`Audit.BodyExactly`), so that much of a log can be changed without a trace and no more
  than that without a hash collision (`Audit.TamperEvidence`). The emitter can see to it that nothing can: when
  no string and no attribute name it logs holds such a code point, in either spelling, every log with its head
  is its own log field for field (`Audit.PlainTamperEvidence`). The condition is exact for strings: one that
  fails it, in any record, gives another log with the same hashes (`Audit.NotPlainGoesUnnoticed`,
  `Audit.AloneExactly`; `Audit.SplitPairGoesUnnoticed` shows it for the actor). A reader can check the
  same of the log at hand (`Audit.CleanTamperEvidence`).
- `RefreshTokenStore.rotate`: its documentation says that reuse marks the whole session compromised and that
  tokens are used once. The code marks the presented record only: after a used token was refused, the
  session's last issued token is accepted as long as it is unexpired, in every run
  (`Refresh.ReuseLeavesSessionOpen`). And a record marked `compromised` is accepted again: the k-th presentation
  of an unexpired token succeeds exactly when k is odd (`Refresh.AcceptsOddPresentations`,
  `Refresh.ThirdPresentationSucceeds`). One-time use holds of exactly the tokens presented at most twice
  (`Refresh.OneSuccessorExactly`).
- `_mutate`: the idempotency key does not stop two calls that overlap, nor a retry after a crash between the
  commit and the mark (`Ledger.OverlapCommitsTwice`, `Ledger.CrashCommitsTwice`). A lookup that misses is safe
  exactly when no other call with the key may still commit and every commit of the key is a day old
  (`Ledger.LookupSafeExactly`); of the commits only those without a mark need to be asked about
  (`Ledger.ClearExactly`). The key is built from the path as it is spelled, the row from the UUID that the path
  spells: whatever the UUID, a repetition under another spelling of it takes effect again
  (`AccountService.OtherSpellingTakesEffect`), and one is recognized exactly when the path is spelled the same
  way (`AccountService.RepeatedExactly`). Path and client's key are joined by a colon that both may hold, so a
  call under another path can be taken for a repetition (`AccountService.ColonTakenForRepetition`), though not
  under a path that spells a UUID (`Ledger.KeysExactly`). The mark is looked up before the policy is asked: a caller the policy
  denies is shown an account exactly when the call repeats one that took effect
  (`AccountService.DeniedIsShownExactly`).
- MOD 97-10 misses a swap of different neighbours in exactly six cases such as `1B` for `B1`
  (`Iban.NeighbourSwap`). Across the check digits and the BBAN the exact condition is `Iban.BoundarySwap`, with
  `Iban.MixedSwapMissed` a missed one. None of them occurs in the IBANs that `new_iban` gives
  (`Iban.IssuedSwapsDetected`).
- `mfa_verify` says it counts attempts per pre-auth token; it counts per first 32 characters of the token. Ten
  attempts with one token turn away any other that shares those characters (`Auth.OthersAreTurnedAway`), and the
  two ways of counting agree in every run exactly when no two tokens in use do (`Auth.PerTokenExactly`). Tokens
  begin with their encoded header, so that any two tokens under one header of 32 characters or more share one
  counter (`Auth.OneHeaderOneCounter`).
- `JWKSCache` fails every call that has to fetch while the server publishes an entry without a `kid`, which
  section 4.5 of RFC 7517 permits (`Jwks.PublishedButNotFound`); a call that fetches finds a published key
  exactly when every entry has one (`Jwks.FetchedExactly`).

## Model

| member | source | states |
|---|---|---|
| Text.SortedKeysExactly | src/shared/securebank_shared/kafka.py:57 | the key order used in printing is the one increasing listing of the keys: any listing with that property is it |
| Text.LessExactly | src/shared/securebank_shared/kafka.py:57 | the order itself: a key is below another exactly when it is a proper beginning of it or has the smaller code point at the first difference |
| Text.CombineIsClean | src/shared/securebank_shared/kafka.py:64 | joining surrogate pairs, as the JSON reader does, leaves none to join |
| Text.TextRoundTrip | src/shared/securebank_shared/kafka.py:57-64 | reading an escaped string gives it back with its surrogate pairs joined, whatever follows it |
| Text.PlainExactly | src/shared/securebank_shared/kafka.py:57 | the texts with only one spelling are exactly those without a code point above U+FFFF, as itself or as two surrogates |
| Text.ShortEscapesExactly | src/shared/securebank_shared/kafka.py:57 | the seven two-character escapes |
| Text.EscapeExactly | src/shared/securebank_shared/kafka.py:57 | every other code point is written as itself if it is printable ASCII, by four lower-case hex digits up to U+FFFF, and above by those of its two surrogates |
| Text.QuoteExactly | src/shared/securebank_shared/kafka.py:57 | a string is its quotes around the escapes of its code points, in order |
| Json.PrintedAs | src/shared/securebank_shared/kafka.py:57 | what is printed, to the letter, without mention of the reader: the words, the numerals, the values and the members in the order of their keys, with commas and colons and no white space |
| Grammar.LoadsExactly | src/shared/securebank_shared/kafka.py:64 | over all texts and values: the reader gives the value if and only if the text is a JSON text of it by the grammar of RFC 8259, with surrogate pairs joined and the last of equal names kept |
| Grammar.HexValueExactly | src/shared/securebank_shared/kafka.py:64 | a character counts as a hex digit of a value exactly when it is that digit in lower or upper case |
| Grammar.Hex4Exactly | src/shared/securebank_shared/kafka.py:64 | four hex digits and their number |
| Grammar.SimpleEscapeExactly | src/shared/securebank_shared/kafka.py:64 | the eight one-letter escapes, and no others |
| Json.RoundTrip | src/shared/securebank_shared/kafka.py:57-64 | for every value, parsing what was printed, with any text after it, consumes exactly the print and gives the value as it is read: strings and keys joined, the last of equal keys kept |
| Json.LoadsPrintIdentity | src/shared/securebank_shared/kafka.py:57-64 | print then parse is the identity on a value if and only if no string or key in it is a split surrogate pair |
| Json.LoadsIsClean | src/shared/securebank_shared/kafka.py:64 | whatever text is parsed, the value has no split surrogate pair |
| Json.PrintExactly | src/shared/securebank_shared/kafka.py:57 | two values, with any strings and keys, print the same text if and only if they are alike: equal but for the spelling of surrogate pairs |
| Json.ReadsOneWay | src/shared/securebank_shared/kafka.py:57 | a print can be told from whatever follows it |
| Json.AlikeReadsBack | src/shared/securebank_shared/kafka.py:57-64 | alike values read back as the same value, and conversely where all keys are clean |
| Json.PrintInjective | src/shared/securebank_shared/kafka.py:57 | different clean values print differently: the canonical form determines the value |
| Json.PlainIsAlone | src/shared/securebank_shared/kafka.py:57 | a value whose strings and keys are plain prints like no other value |
| Json.NotPlainHasAnother | src/shared/securebank_shared/kafka.py:57 | a value with a string that is not plain, at any depth, has a different value that prints alike |
| Json.PrintNorm | src/shared/securebank_shared/kafka.py:68 | where all keys are clean, reprinting a parsed value reproduces the text it was printed as |
| Json.PrintIsAscii | src/shared/securebank_shared/kafka.py:57-60 | every print is printable ASCII, so its encoding as bytes is the text itself |
| Envelope.HexRoundTrip | src/shared/securebank_shared/kafka.py:58-69 | reading the hex of a digest gives the digest back |
| Envelope.ToHexExactly | src/shared/securebank_shared/kafka.py:58-60 | byte i of a digest is spelled by characters 2i and 2i + 1, the lower-case digits of its high and its low half |
| Envelope.MemberNames | src/shared/securebank_shared/kafka.py:51-60 | the members are named v, ts, iss, sig and data |
| Envelope.SealEnvelope | src/shared/securebank_shared/kafka.py:50-60 | for clean and unclean data alike: the text is the print of version 1, the time, the issuer and the data with the lower-case hex of the mac of their print, in ASCII |
| Envelope.SealedHoldsExactly | src/shared/securebank_shared/kafka.py:50-60 | reading a sealed envelope gives exactly v, ts, iss, data and sig, with the issuer, the time and the data as they were |
| Envelope.OpenEnvelope | src/shared/securebank_shared/kafka.py:63-73 | the steps of `open_envelope`: the data member comes out of exactly the messages that meet the condition of `Envelope.AcceptedExactly`, and the specified error of any other |
| Envelope.OpenSealed | src/shared/securebank_shared/kafka.py:50-73 | for all data, opening with any key gives the sealed data as it is read exactly when that key signs the payload as it is read like the sealing key signed it, and an invalid-signature error otherwise; where the keys in the data are clean the two texts are one |
| Envelope.SignedOpensExactly | src/shared/securebank_shared/kafka.py:63-73 | a signed clean message of any members is accepted exactly when its version is 1 or true and it has data |
| Envelope.TrueVersionIsAccepted | src/shared/securebank_shared/kafka.py:71 | a message of version true is accepted |
| Envelope.AcceptedExactly | src/shared/securebank_shared/kafka.py:63-73 | over all texts: accepted is exactly an object whose string signature is the hex of the mac of the rest reprinted, with version 1 or true and a data member, which is what comes out |
| Envelope.RefusedExactly | src/shared/securebank_shared/kafka.py:63-73 | each error of an object that is refused, exactly, in the order in which it is looked at |
| Envelope.RoundTripExactly | src/shared/securebank_shared/kafka.py:50-73 | for every mac, key, issuer, time and data, opening the sealed data gives it back if and only if it has no split surrogate pair |
| Envelope.SplitPairIsLost | src/shared/securebank_shared/kafka.py:50-73 | a concrete string that comes back as a different one |
| Envelope.OpenedIsClean | src/shared/securebank_shared/kafka.py:63-73 | every accepted message carries data that survives a further round trip |
| Envelope.SignatureBindsBody | src/shared/securebank_shared/kafka.py:65-73 | two accepted envelopes with one signature agree on every member but the signature, or exhibit a mac collision |
| Consumer.RunKeepsInvariant | src/shared/securebank_shared/kafka.py:158-170 | every run of appends, fetches, completions, commits and crashes keeps position, work done and hand-over order consistent |
| Consumer.AtLeastOnce | src/shared/securebank_shared/kafka.py:158-170 | for any way of reading messages and any number of crashes: the body has completed for every message below the committed offset that the reading accepts, no other is handed over, first hand-overs are in offset order, and hand-overs exceed the accepted messages reached by at most the number of crashes |
| Consumer.ReaderExactly | src/shared/securebank_shared/kafka.py:158-168 | the reading of the loop accepts exactly the messages that meet the condition of `Envelope.AcceptedExactly`, and gives their data member |
| Consumer.GenuineAtLeastOnce | src/shared/securebank_shared/kafka.py:158-170 | the delivery promises with that condition written out: the body has completed for every message that meets it below the committed offset, one that does not is never handed over, and each crash repeats at most one message |
| Consumer.SealedComesThrough | src/shared/securebank_shared/kafka.py:50-73 | of a log of sealed messages with clean data, mixed with any texts that do not meet the condition, exactly the sealed data comes through, in order |
| Consumer.SecureConsumer.constructor | src/shared/securebank_shared/kafka.py:134-151 | a new consumer stands at the first offset with nothing handed over |
| Consumer.SecureConsumer.Turn | src/shared/securebank_shared/kafka.py:160-168 | one turn hands over the data member of the next message if and only if its text is an object with a string signature that is the hex of the mac of the rest reprinted, version 1 or true and a data member, and commits past it either way |
| Consumer.SecureConsumer.Stream | src/shared/securebank_shared/kafka.py:158-170 | undisturbed, the loop yields the data members of the messages that meet that condition from the committed offset on, in order and once each, and is a run of the machine |
| Consumer.TurnExtends | src/shared/securebank_shared/kafka.py:160-168 | a turn of the loop extends the run of the machine by a fetch, a completion if the message is accepted, and a commit |
| BellLapadula.LevelValue | k8s/policies/opa/bell_lapadula.rego:24-29 | a name has a value exactly when it is in the list, and the value is its position |
| BellLapadula.DecisionByPosition | k8s/policies/opa/bell_lapadula.rego:31-62 | reads are allowed exactly downwards and writes exactly upwards in the list, unknown labels decide as level 0, other operations are denied |
| BellLapadula.DecisionByName | k8s/policies/opa/bell_lapadula.rego:22-62 | the four names from unclassified to secret and their values, and every decision between two of them by name |
| BellLapadula.NonInterference | k8s/policies/opa/bell_lapadula.rego:43-62 | under any policy within the rules, deleting every request made above a level leaves all memories and resources at or below it unchanged, over any run |
| BellLapadula.LowViewIgnoresHighRequests | k8s/policies/opa/bell_lapadula.rego:43-62 | runs of the policy that agree on the low requests look alike from below |
| BellLapadula.RelaxingLeaks | k8s/policies/opa/bell_lapadula.rego:43-62 | permitting any single read or write the policy denies admits a run that leaks |
| BellLapadula.SecureExactlyWithin | k8s/policies/opa/bell_lapadula.rego:43-62 | a policy has non-interference if and only if it permits no read or write that this one denies |
| Iban.NumericValue | src/account-service/app/iban.py:13-20 | spells exactly the alphanumeric texts in digits, letters as 10 to 35 |
| Iban.CharValueExactly | src/account-service/app/iban.py:10-20 | the number of a character is its place in 0-9A-Z |
| Iban.ExpandExactly | src/account-service/app/iban.py:10-20 | a digit stands for itself and a letter for the two digits of its number |
| Decimal.DigitsExactly | src/account-service/app/iban.py:26 | a digit counts as its place in 0-9 |
| Decimal.HornerIsDecimal | src/account-service/app/iban.py:26 | a numeral is read in tens |
| Decimal.NumeralReadsBack | src/account-service/app/iban.py:10-28 | reading a printed number gives it back |
| Iban.ComputeCheckDigits | src/account-service/app/iban.py:23-28 | computes the check characters that the lemmas below are about, for exactly the alphanumeric inputs |
| Iban.NewIban | src/account-service/app/iban.py:31-38 | every new IBAN has 24 characters, the country and bank codes, two check digits, the drawn account number, and is valid |
| Iban.ExpandsToDigits | src/account-service/app/iban.py:13-20 | the text handed to `int` is a numeral |
| Iban.CheckNumberUnique | src/account-service/app/iban.py:23-28 | for any country code and BBAN the computed value is the only one from 02 to 98 that makes the number 1 modulo 97 |
| Iban.ValidCheckDigits | src/account-service/app/iban.py:23-28 | the computed check characters make the IBAN valid |
| Iban.MiddleDecides | src/account-service/app/iban.py:13-28 | replacing a part by one with as many digits is noticed exactly when the parts differ modulo 97, wherever the part stands |
| Iban.SubstitutionDetected | src/account-service/app/iban.py:10-28 | one digit for another digit, or one letter for another letter, changes the remainder |
| Iban.NeighbourSwap | src/account-service/app/iban.py:10-28 | swapping two neighbours keeps the remainder if and only if they are equal or one of 1B, 2M, 3X in either order |
| Iban.WrongCharacterDetected | src/account-service/app/iban.py:10-28 | a valid written IBAN of any length becomes invalid when one digit or one letter is changed |
| Iban.SwapDetected | src/account-service/app/iban.py:10-28 | a valid written IBAN survives a swap of neighbours exactly in those cases, except across the check digits and the BBAN |
| Iban.OrderOfTen | src/account-service/app/iban.py:26 | a power of ten is 1 modulo 97 exactly when its exponent is a multiple of 96 |
| Iban.BoundarySwap | src/account-service/app/iban.py:10-28 | for any two characters, the swap of the last check character with the one opening the BBAN is missed exactly under a condition on the two and the number of digits between them: for one kind, equality or a multiple of 96 places; for a digit and a letter, a congruence |
| Iban.BoundarySwapDetected | src/account-service/app/iban.py:10-28 | within the 34 characters of ISO 13616-1 that swap is always noticed between two digits or two letters |
| Iban.MixedSwapMissed | src/account-service/app/iban.py:10-28 | between a digit and a letter it can be missed: two valid IBANs that differ by it |
| Iban.IssuedSwapsDetected | src/account-service/app/iban.py:23-38 | in every valid IBAN of the form `new_iban` gives, every swap of two different adjacent characters is noticed |
| Ledger.StepKeepsInvariant | src/account-service/app/routes_accounts.py:108-146 | every step of every call keeps conservation, lock ownership, what Redis holds, what lookups saw, and the match of commits with calls |
| Ledger.RunsKeepInvariant | src/account-service/app/routes_accounts.py:108-146 | so does every interleaving of any number of calls, with crashes between any two steps |
| Ledger.BooksBalance | src/account-service/app/routes_accounts.py:124-143 | in every interleaving each balance is its start plus the amounts of the committed credits minus those of the committed debits, is not negative, and the version has grown by the number of commits |
| Ledger.KeysExactly | src/account-service/app/routes_accounts.py:111 | two requests have one Redis key if and only if their operations are equal and so are path and client's key joined by a colon; where the paths have no colon, or are the same, if and only if operation, path and client's key are equal |
| Ledger.SpellingExactly | src/account-service/app/routes_accounts.py:111-125 | a hyphen anywhere in the path, and the case of a hex digit, make no difference to the row |
| Ledger.BareExactly | src/account-service/app/routes_accounts.py:124-125 | a path without hyphens and capital hex digits names itself, and every path names such a one |
| Ledger.RefusalExactly | src/account-service/app/routes_accounts.py:127-138 | a row that is not active is refused, an active one exactly a debit above its balance |
| Ledger.LookupExact | src/account-service/app/routes_accounts.py:111-118 | a lookup finds its key if and only if some mark of it is less than 24 h old |
| Ledger.IdempotencyWindow | src/account-service/app/routes_accounts.py:111-145 | a commit whose lookup fell within 24 h of a mark of its key made that lookup before the mark was set, and no call commits twice |
| Ledger.OverlapCommitsTwice | src/account-service/app/routes_accounts.py:111-145 | from every state where the account can bear it, two overlapping calls with one key both commit, one after the other's mark |
| Ledger.CrashCommitsTwice | src/account-service/app/routes_accounts.py:143-145 | likewise a retry after a crash between the commit and the mark |
| Ledger.SerializedCommitsOnce | src/account-service/app/routes_accounts.py:111-145 | when every missing lookup is clear (no other call with the key may still commit, every commit of the key is a day old), each key commits at most once a day, in every interleaving and with any crashes |
| Ledger.UnclearCommitsTwice | src/account-service/app/routes_accounts.py:111-145 | from any reachable state, a missing lookup that is not clear and whose row can bear it can be continued to a second commit of the key within a day |
| Ledger.LookupSafeExactly | src/account-service/app/routes_accounts.py:111-145 | after any serialized run, such a lookup is clear if and only if every way to go on with serialized lookups keeps the commits of each key a day apart |
| Ledger.ClearExactly | src/account-service/app/routes_accounts.py:113-145 | in every reachable state a missing lookup is clear exactly when it is clear of the commits that have no mark |
| AccountService.Service.constructor | src/account-service/app/routes_accounts.py:108-146 | starts from the given accounts with no keys |
| AccountService.Service.Mutate | src/account-service/app/routes_accounts.py:108-146 | an undisturbed call: the outcome as a table in the order of the checks; on success the balance plus or minus the amount, the version plus one and the mark for 86400 s; otherwise no change; and the account as it then is, for a replayed call too |
| AccountService.OtherSpellingTakesEffect | src/account-service/app/routes_accounts.py:111-145 | for every path that spells a UUID and every request its account can bear twice, the request and the same one under another spelling of that UUID both take effect, whenever they are made, and the balance moves twice |
| AccountService.RespelledIsAnother | src/account-service/app/routes_accounts.py:111-125 | every path that spells a UUID has another spelling that the database takes for the same one |
| AccountService.DeniedIsShownExactly | src/account-service/app/routes_accounts.py:113-122 | a caller the policy denies is shown an account if and only if the call repeats one that took effect and the account exists |
| AccountService.RepeatedExactly | src/account-service/app/routes_accounts.py:111-145 | after a call that took effect, a call of its operation with the same path and client's key (joined by a colon) is replayed exactly until 86400 s after its end; any other if and only if it was before; and one that is not replayed, on the same account, is decided anew |
| AccountService.ColonTakenForRepetition | src/account-service/app/routes_accounts.py:111-118 | whatever took effect under a client's key with a colon in it, a call under another path and another key is taken for its repetition and changes nothing |
| AccountService.AloneIsServe | src/account-service/app/routes_accounts.py:108-146 | the machine's steps of one call, with nothing in between, do what the specification says, for every outcome |
| AccountService.ServingRefinesHistory | src/account-service/app/routes_accounts.py:111-145 | calls served one after the other refine a history that ignores a call while one with its Redis key that took effect is less than 24 h old; rejected calls leave the key free |
| Fraud.FeatureStore.constructor | src/fraud-detection-service/app/worker.py:21-48 | an empty store represents the empty history |
| Fraud.FeatureStore.Handle | src/fraud-detection-service/app/worker.py:21-48 | the two counts are the numbers of transactions of the full history last handled in the last 86400 and 3600 s, each between 1 and the larger; the score is, by sum and spread of the newest 101 amounts, how far the amount is above the mean in deviations, with a square of at most 100 |
| Fraud.LastTimesMeaning | src/fraud-detection-service/app/worker.py:33-34 | the reference map holds, for exactly the handled transactions, the time of the last event: a redelivery moves an entry and adds none |
| Fraud.PruneStep | src/fraud-detection-service/app/worker.py:34-35 | adding to a pruned set and pruning further is pruning the full map |
| Fraud.CountsAgree | src/fraud-detection-service/app/worker.py:30-37 | counts over the pruned set equal counts over the full map, and 1 <= hour <= day |
| Fraud.SpreadExpand | src/fraud-detection-service/app/worker.py:43-45 | the squared differences of all pairs sum to n times the sum of squares minus the square of the sum |
| Fraud.SpreadNonNegative | src/fraud-detection-service/app/worker.py:45 | that spread is never negative and zero exactly when all amounts are equal |
| Fraud.VarianceTimesSize | src/fraud-detection-service/app/worker.py:44-45 | the population variance times n squared is the spread |
| Fraud.ScoreExactly | src/fraud-detection-service/app/worker.py:42-48 | below five amounts the score is zero; from five on n times its numerator is n times the amount minus the sum, its squared denominator times n squared is the spread (or n squared when that is zero), and it is positive or negative as n times the amount is above or below the sum |
| Fraud.ScoreBound | src/fraud-detection-service/app/worker.py:39-48 | the square of the z-score is at most n - 1, reaches it exactly when the other amounts are equal and differ from the newest, and a sample without deviation scores zero |
| Sessions.SessionStore.constructor | src/shared/securebank_shared/sessions.py:35-38 | an empty store under a key |
| Sessions.SessionStore.Create | src/shared/securebank_shared/sessions.py:43-64 | stores a new session under its id for 900 s |
| Sessions.SessionStore.Get | src/shared/securebank_shared/sessions.py:66-80 | each case: nothing under the id, or expired, changes nothing; a session sealed under the key is returned with the time as its last-seen and kept for 900 s from now; a blob that does not decrypt is dropped |
| Sessions.SessionStore.Revoke | src/shared/securebank_shared/sessions.py:82-83 | removes one id and nothing else |
| Sessions.SessionStore.RevokeAllForUser | src/shared/securebank_shared/sessions.py:85-100 | for any store and any scan order with repetitions: removes exactly the user's sessions and the undecryptable blobs, and returns the number of unexpired sessions of the user sealed under the key |
| Sessions.RevokeAllLeavesOthers | src/shared/securebank_shared/sessions.py:85-100 | afterwards no session of the user can be read, nothing undecryptable is left to look up, and every other session reads as before with its expiry untouched |
| Sessions.RunAgrees | src/shared/securebank_shared/sessions.py:43-100 | after every history the store agrees with the record of creations, gets and revocations about every id |
| Sessions.GetExact | src/shared/securebank_shared/sessions.py:43-100 | a get returns a session if and only if it was created, not revoked since, and all gaps from creation through successful gets to now are under 900 s; only its last-seen time differs from the created record |
| Refresh.RefreshTokenStore.constructor | src/shared/securebank_shared/sessions.py:106-108 | an empty store |
| Refresh.RefreshTokenStore.IssueToken | src/shared/securebank_shared/sessions.py:110-113 | adds one live record for 604800 s |
| Refresh.RefreshTokenStore.RotateToken | src/shared/securebank_shared/sessions.py:115-136 | each case: absent or expired, nothing changes; `used`, refused and marked `compromised`; otherwise marked `used` with a new live record for its user and session; each write for 604800 s |
| Refresh.StateByPresentations | src/shared/securebank_shared/sessions.py:115-136 | after every history a token's state and its number of successors are determined by how often it was presented |
| Refresh.AcceptsOddPresentations | src/shared/securebank_shared/sessions.py:115-136 | the k-th presentation of an unexpired token succeeds if and only if k is odd |
| Refresh.OneSuccessorExactly | src/shared/securebank_shared/sessions.py:115-136 | a token has at most one successor if and only if it was presented at most twice |
| Refresh.LivesSevenDays | src/shared/securebank_shared/sessions.py:110-136 | in every history a record is present if and only if it was last written, by its issue or by a presentation that found it, less than 604800 s ago |
| Refresh.ThirdPresentationSucceeds | src/shared/securebank_shared/sessions.py:129-136 | a concrete history in which one token is rotated into two |
| Refresh.LiveTokensCounted | src/shared/securebank_shared/sessions.py:110-136 | each session has one record in state live, expired or not, per login into it plus one per accepted replay |
| Refresh.LastIssuedIsLive | src/shared/securebank_shared/sessions.py:110-136 | the token last issued to a session is live and lasts seven days from then, in every run |
| Refresh.ReuseLeavesSessionOpen | src/shared/securebank_shared/sessions.py:129-132 | in every run, a used token that is presented is refused and its record alone marked, and the session's last issued token is accepted from then on exactly as long as it is unexpired |
| Refresh.FamiliesAreChains | src/shared/securebank_shared/sessions.py:110-136 | where no token is presented more than twice, a session with one login has exactly one live token, the one last issued, usable until seven days after that and none after; and no token has two successors |
| Auth.AuthService.constructor | src/auth-service/app/routes_auth.py:84-290 | empty stores |
| Auth.AuthService.OpenSession | src/auth-service/app/routes_auth.py:197-221 | a new session, an access token with its user, roles and flag, and a refresh token for it |
| Auth.AuthService.LogIn | src/auth-service/app/routes_auth.py:85-152 | each reply exactly, for every user row and password result: 401, 423, a pre-auth token for a row with a second factor, and otherwise tokens with the role "admin" or "customer" of the row; and the new stores |
| Auth.AuthService.VerifyMfa | src/auth-service/app/routes_auth.py:158-221 | each reply exactly, with the row of the subject of the token and its role; the attempt is counted in every case |
| Auth.AuthService.RefreshTokens | src/auth-service/app/routes_auth.py:251-278 | the reply and the new stores; the token is rotated even when its session is gone |
| Auth.AuthService.LogOut | src/auth-service/app/routes_auth.py:284-290 | revokes the session named by the header, if any |
| Auth.StepKeepsInvariant | src/auth-service/app/routes_auth.py:85-290 | every handler keeps sessions, refresh records, tokens, origins and counters in agreement |
| Auth.RunKeepsInvariant | src/auth-service/app/routes_auth.py:85-290 | so does every run of handlers |
| Auth.TokensAreFaithful | src/auth-service/app/routes_auth.py:126-290 | in every run each access token carries the user, roles and second-factor flag its session was created with, the flag only where the code check passed, none is minted for a session after its logout, and a counter never lets through more than ten code checks |
| Auth.TokensAreEarned | src/auth-service/app/routes_auth.py:88-278 | in every run, each token minted goes back to a login or a code check of that run that opened its session with its user, and its role is "admin" if that user's row says so and "customer" if not; a user with a second factor has none without a code |
| Auth.OriginsAreFixed | src/auth-service/app/routes_auth.py:126-221 | what a session was created with never changes, and minted tokens stay minted |
| Auth.NoTokenAfterLogout | src/auth-service/app/routes_auth.py:250-290 | from any reachable state, no token minted after a session's logout carries that session |
| Auth.CountersAgree | src/auth-service/app/routes_auth.py:162-168 | after every run a counter holds the number of attempts since its window was opened, and lasts fifteen minutes from then |
| Auth.ThrottledExactly | src/auth-service/app/routes_auth.py:162-168 | after any run, an attempt is turned away for its number if and only if ten or more under the first 32 characters of its token were made since the window was opened less than fifteen minutes ago |
| Auth.CountedTogetherExactly | src/auth-service/app/routes_auth.py:162-164 | two tokens share a counter if and only if they are equal or agree in 32 first characters |
| Auth.OthersAreTurnedAway | src/auth-service/app/routes_auth.py:162-168 | for any two tokens with the same first 32 characters, ten attempts with one turn the other away, which counting per token would not |
| Auth.OneHeaderOneCounter | src/auth-service/app/routes_auth.py:162-168 | any two different tokens under one header of 32 characters or more share one counter, so that ten attempts with one turn the other away |
| Auth.PerTokenExactly | src/auth-service/app/routes_auth.py:162-168 | for any set of tokens in use, that counting agrees with counting per token in every run and at every time if and only if no two of them share their first 32 characters |
| Auth.RunAccepts | src/auth-service/app/routes_auth.py:92-105 | the record of accepted passwords is that of the logins of the run, and every pre-auth token and session goes back to one of its user |
| Auth.PasswordCameFirst | src/auth-service/app/routes_auth.py:88-221 | every token that is minted is for a user whose password was accepted in the run, less than five minutes before its session was created |
| Audit.AuditLogger.constructor | src/shared/securebank_shared/audit.py:42-49 | the chain starts from the hash of host, process and start time |
| Audit.AuditLogger.Emit | src/shared/securebank_shared/audit.py:51-78 | appends one record with the given fields, changes no earlier one, and the whole chain still verifies from the seed |
| Audit.VerifiesNext | src/shared/securebank_shared/audit.py:61-75 | a chain with one more record verifies if and only if the chain does, the record names its head, and it carries its own hash |
| Audit.FieldNames | src/shared/securebank_shared/audit.py:25-36 | the ten members have the names of the record's fields |
| Audit.BodyHoldsExactly | src/shared/securebank_shared/audit.py:61-74 | reading the body of a clean record gives exactly its ten fields, each under its name, with null for an absent one and an empty hash |
| Audit.SeedExactly | src/shared/securebank_shared/audit.py:48 | the seed text is host, process and time with colons between, and tells all three |
| Audit.BodyExactly | src/shared/securebank_shared/audit.py:73 | for all records: two bodies are equal if and only if the records are alike in every field but the own hash |
| Audit.BodyInjective | src/shared/securebank_shared/audit.py:73 | clean records with equal bodies are equal up to the hash |
| Audit.SeedIsNoBody | src/shared/securebank_shared/audit.py:48-74 | no record's body is a seed text |
| Audit.ChainsAgree | src/shared/securebank_shared/audit.py:48-75 | chains with one seed and one head hash are alike record for record or exhibit a hash collision |
| Audit.TamperEvidence | src/shared/securebank_shared/audit.py:48-78 | for all logs that verify from an emitted log's seed: one that ends in its head hash has its length, its hashes and is alike record for record, or exhibits a hash collision; and one that is alike does end in its head hash |
| Audit.CleanTamperEvidence | src/shared/securebank_shared/audit.py:48-78 | of a log without split surrogate pairs, any log with the same head is alike or shows a collision, and is equal field for field if and only if it has no such pair either |
| Audit.PlainTamperEvidence | src/shared/securebank_shared/audit.py:48-78 | of a log whose strings and attribute names are plain, any log at all that verifies from its seed and ends in its head hash is equal field for field or shows a collision |
| Audit.NotPlainGoesUnnoticed | src/shared/securebank_shared/audit.py:48-78 | a field or attribute string that is not plain, in any record of any log that verifies, gives a different log that verifies, hashes the same texts and ends in the same head hash |
| Audit.AloneExactly | src/shared/securebank_shared/audit.py:48-78 | where attribute names are plain, a log is alike to no other that verifies if and only if all its strings are plain |
| Audit.SplitPairGoesUnnoticed | src/shared/securebank_shared/audit.py:48-78 | for every seed and event, two logs that verify, hash the same text to the same hash and differ in the spelling of the actor, one of them clean |
| Jwks.PublishedIsLast | src/shared/securebank_shared/jwt_dep.py:32 | the key published for a kid is the last entry that carries it |
| Jwks.Index | src/shared/securebank_shared/jwt_dep.py:32 | the dictionary of a document, which exists exactly when every entry has a kid, holds what is published for every kid |
| Jwks.JWKSCache.constructor | src/shared/securebank_shared/jwt_dep.py:21-25 | an empty, expired cache |
| Jwks.JWKSCache.Refresh | src/shared/securebank_shared/jwt_dep.py:27-34 | a failed fetch or a document with an entry without a kid changes nothing; any other replaces the keys and the expiry |
| Jwks.JWKSCache.Get | src/shared/securebank_shared/jwt_dep.py:36-41 | a fresh key is answered without a fetch, any other call answers from what it fetched |
| Jwks.RunAgrees | src/shared/securebank_shared/jwt_dep.py:27-41 | over every run of overlapping calls the cache is that of the last good fetch |
| Jwks.CachedExactly | src/shared/securebank_shared/jwt_dep.py:36-41 | a call answers from the cache if and only if the last good fetch ended less than the cache's life ago and published the kid, and then with that key |
| Jwks.CachedKeyWasPublished | src/shared/securebank_shared/jwt_dep.py:27-41 | over a changing server, a cached key was published for its kid at a moment after now minus the cache's life minus the longest fetch |
| Jwks.FetchedExactly | src/shared/securebank_shared/jwt_dep.py:27-41 | each answer of a call that fetched, exactly: the key published then if every entry has a kid and one has this one, an unknown kid if none has it, and a failure if some entry has no kid or the fetch failed |
| Jwks.PublishedButNotFound | src/shared/securebank_shared/jwt_dep.py:32 | a document that publishes a key that is not found |
| Lockout.User.constructor | src/auth-service/app/models.py:39-40 | a row with the given counter and lock |
| Lockout.User.RecordLoginFailure | src/auth-service/app/repo.py:31-37 | counts one failure, and at the limit sets the lock and starts the counter again |
| Lockout.User.ClearLoginFailures | src/auth-service/app/repo.py:39-42 | no failures and no lock |
| Lockout.CounterLaw | src/auth-service/app/repo.py:31-42 | after any calls with a fixed limit, the counter is the number of failures since the last clear modulo the limit, and the lock ends its period after the latest failure that completed the limit, or there is none |
| Lockout.LockedExactly | src/auth-service/app/repo.py:31-42 | while the clock does not go back, the row is locked if and only if some failure since the last clear completed the limit less than the lock period ago |

## Left out

- JSON floats, NaN, non-string keys and tuples: the envelope's time stamp and the audit record's are integers.
- Envelope.SealEnvelope: the time stamp is an integer, where the source prints a float.
- Envelope.OpenEnvelope: texts with floats are refused as bad JSON, where the source accepts them.
- Envelope.OpenSealed: no floats in the data.
- Grammar.LoadsExactly: numbers with fractions or exponents, and the words for NaN and infinities that the source's reader accepts.
- Envelope.RoundTripExactly: no floats in the data and the time stamp.
- Audit.AuditLogger.Emit: the time stamp is an integer and attributes hold no floats.
- Decoding of message bytes that are not ASCII, Python's recursion limit on nested values, and its 4300-digit limit on `int`.
- Iban.NumericValue: texts with characters outside 0-9 and A-Z are one error; `int` would accept signs, spaces, underscores and non-ASCII digits in some of them.
- Rego documents with labels that are not strings, `deny_reason`, and the other policies.
- BellLapadula.NonInterference: labels do not change during a run.
- Ledger.BooksBalance: account status and rows are changed by nothing but these calls, and balances have no upper limit.
- Ledger.LookupSafeExactly: says nothing of rows that are missing, inactive or too low, as they stand when the key is looked up, for the call or for another with its key.
- Paths that spell no UUID, which the database refuses, are accounts that are not found; a path spells a UUID when it has 32 hex digits in either case and at most four hyphens, and other spellings are not modelled.
- Audit.AloneExactly: attribute names that are not plain, as respelling one can move it in the sorted print.
- Redis losing keys before their expiry, and entries expiring on fractions of a second: time is a natural number of seconds.
- Fraud.FeatureStore.Handle: two calls for one user do not interleave; amounts are exact, so rounding of the z-score is not modelled.
- `is_new_destination`, the model's verdict, alerts and the risk scores.
- Interleavings inside `SessionStore.get` and `RefreshTokenStore.rotate`: both read and then write without a lock; each call is one step here, and so is each handler in `Auth`.
- A `|` in a user id or session id, which makes a refresh record unreadable.
- Refresh.LiveTokensCounted: counts expired records as well; `Refresh.FamiliesAreChains` says which are usable.
- Auth.AuthService.LogIn: the failure counter, because the error raised inside the transaction rolls it back; password rehashing; audit records.
- Encoding of tokens and the expiry of access tokens; a pre-auth token is its text, and only texts that were issued verify.
- Lockout.CounterLaw: two transactions that write one row at once.
- Several partitions, rebalancing and offset commits that fail in the consumer; its crash takes all progress since the last commit.
- Jwks.JWKSCache.Get: documents that are not an object with a list of objects are counted as failed fetches.
- HTTP, the gateway, transaction-service (its transfers move no balances), SOAR playbooks, deployment and the frontend.
