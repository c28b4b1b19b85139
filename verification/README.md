# Verified model of pycodex and its parity harness

A Dafny model of the parts of the repository where the code computes more than it shows. `dafny verify dfyconfig.toml`
checks all of it.

- **Agent identity cryptography.** Hand-written X25519, Ed25519 signing, Poly1305, Salsa20 and the two boxes built on
  them. Modules `PyInts`, `Bits` and `ModArith` hold the integers, bits and congruences, `Clamp`, `X25519` and
  `Montgomery` the ladder, `MontgomeryCurve` the points it works on, `DoubleAndAdd`, `EdwardsCurve` and `Ed25519` the
  signatures, `Poly1305`, `Salsa20`, `Salsa20Spec` (the specification its core is proved against), `SecretBox` and
  `SecretBoxLaws` the rest. The loops are methods proved against functions; the functions are proved against the
  mathematics.
- **Configuration editing.** `Values` has the values and the host language's equality on them, `KeyPath` the path
  parser and a printer, `ConfigTree` set, clear and merge on values, `ConfigHeap` the same on nested objects changed in
  place, `EditLog` the edit loop and the replay of its log.
- **Event-driven state machines.** `Reducer` is the analytics reducer as a step function, `ReducerHistory`, `TurnJoin`,
  `ReducerLaws` and `ReducerEvents` theorems about whole sequences of facts: which events each fact makes and what they
  carry, by the history alone; `ReducerObject` the object: its methods extend a history of facts, and the theorems are
  stated of it. `Outgoing` is the request and callback bookkeeping of the app server: labelled steps and theorems over
  every interleaving; `OutgoingObject` is its object.
- **Smaller algorithms.** `DiffScan`, `DiffText` and `DiffLaws` (unified-diff scanner), `CfgExpr` (cfg predicates),
  `Acceptance` (joining evidence), `TraceCompare` (trace strategies), `Reachable` (import reachability). `PyText` and
  `Wrappers` are shared.

Assumptions appear as `requires` of the theorems that need them and nowhere else: that 2^255 - 19 is prime; that
addition associates on the Montgomery curves (`MontgomeryCurve.GroupLaw`) and on the multiples of a point of the
Edwards curve (`Ed25519.AssociativeOn`); that D is no square modulo P (`EdwardsCurve.NoSquare`); and [Q]B = (0, 1).
SHA-512, BLAKE2b, the fingerprint hash, character classes, `int(segment)`, string normalisation and the canonical JSON
text of an event are function parameters, so the theorems hold for every choice of them.

Where the code does not do what its surroundings suggest, the code is modelled and the difference is stated:

- The log of configuration edits does not reproduce the configuration in three families of cases: a set that goes
  through a list which already yields the new value, a clear of a key that holds None, and a set over an equal value of
  another type (1 over true). `EditLog.OneEdit` has the exact condition.
- An unknown reviewer raises an error only after the review was counted, so the review count of an item no longer
  splits by reviewer (`ReducerLaws.ReviewCountSplits`).
- `splitlines` breaks a line of a diff at more characters than the newline; what stands behind such a break is scanned
  as a line of its own, even as the start of another file (`DiffLaws.ScanRendered`, `DiffLaws.CountsExactIff`).
- A diff without `diff --git` lines has its later file names counted as changed lines, and its later lines filed under
  the first path (`DiffLaws.WithoutGitLines`).
- The strategy `ordered-subsequence` is stricter than `exact` on events that are equal and print differently
  (`TraceCompare.ExactButNotOrdered`).
- RFC 7748 has the top bit of an input coordinate ignored; the code reduces all 256 bits modulo p
  (`MontgomeryCurve.TopBitIsRead`).

## Model

| member | source | states |
|---|---|---|
| `X25519.LadderLoop` | pycodex/agent_identity/__init__.py:475-499 | the loop with its swaps put off to the next round ends where the textbook ladder, which swaps and swaps back in every round, ends, for every scalar |
| `X25519.X25519` | pycodex/agent_identity/__init__.py:466-501 | byte clamp, loop, final swap, inversion by a power and encoding together give the specified 32 bytes for every 32-byte scalar and every point string |
| `Clamp.ClampsAgree` | pycodex/agent_identity/__init__.py:641-645 | the clamp on bytes (lines 467-470) and the clamp on the integer compute the same number, for every 32-byte scalar |
| `Clamp.ClampValueRange` | pycodex/agent_identity/__init__.py:641-645 | a clamped scalar is a multiple of 8 in [2^254, 2^255) |
| `Clamp.ClampIsBitwise` | pycodex/agent_identity/__init__.py:641-645 | bit by bit: bits 0, 1, 2 and 255 are cleared, bit 254 is set, all others stay |
| `Montgomery.DoublingPolynomial` | pycodex/agent_identity/__init__.py:483-496 | the code's aa*bb and e*(aa + a24*e) are the doubling polynomials of the curve with A = 486662 |
| `Montgomery.StepIsCurveArithmetic` | pycodex/agent_identity/__init__.py:483-496 | one step computes the doubling polynomials and four times the differential addition, modulo p |
| `Montgomery.StepCarries` | pycodex/agent_identity/__init__.py:479-496 | a step takes a pair that represents [m]P and [m+1]P to one that represents [2m+bit]P and [2m+bit+1]P |
| `Montgomery.LadderCarries` | pycodex/agent_identity/__init__.py:475-496 | after the bits above t the pair represents [k>>t]P and [(k>>t)+1]P, for every k < 2^255 |
| `MontgomeryCurve.AddOnCurve` | pycodex/agent_identity/__init__.py:466-501 | the curve behind the ladder, b v^2 = u^3 + 486662 u^2 + u: the chord-and-tangent sum of two of its points is on it |
| `MontgomeryCurve.DoublingLaw` | pycodex/agent_identity/__init__.py:483-496 | the u-coordinate of a doubled point is the quotient of the doubling polynomials the step computes, also where the tangent is vertical |
| `MontgomeryCurve.DifferentialLaw` | pycodex/agent_identity/__init__.py:483-496 | the u-coordinate of a sum is the quotient of the polynomials of differential addition, for a difference that is finite and not 0; neutral and opposite summands included |
| `MontgomeryCurve.MultiplesObey` | pycodex/agent_identity/__init__.py:475-496 | so the u-coordinates of the multiples of a point obey the laws the ladder rests on; of the group law only associativity is taken as given |
| `MontgomeryCurve.EveryCoordinate` | pycodex/agent_identity/__init__.py:466-501 | every number below p is the u-coordinate of a point of a curve of the family |
| `MontgomeryCurve.X25519IsScalarMultiple` | pycodex/agent_identity/__init__.py:466-501 | for every 32-byte scalar and every point string the result is the u-coordinate of [clamp(k)]P, where P is a point whose u-coordinate is the string modulo p, and 0 for the neutral element; given that p is prime and addition associates |
| `MontgomeryCurve.TopBitIsRead` | pycodex/agent_identity/__init__.py:471 | the coordinate read is that of the masked string, as section 5 of RFC 7748 has it, if and only if the top bit is clear; with it set it is that coordinate plus 19 |
| `MontgomeryCurve.TopBitMatters` | pycodex/agent_identity/__init__.py:471 | a string the two readings take apart: 0 for the RFC and 19 for the code |
| `Montgomery.ZeroResult` | pycodex/agent_identity/__init__.py:466-501 | a point string that is 0 modulo p gives 0 for every scalar, with no law of the curve assumed |
| `MontgomeryCurve.KeyAgreement` | pycodex/agent_identity/__init__.py:429-431 | the two sides of the exchange obtain the same bytes |
| `ModArith.Fermat` | pycodex/agent_identity/__init__.py:501 | z^(p-2) inverts z modulo a prime p, which is what the code takes its inverses for; proved from the binomial theorem |
| `Ed25519.Constants` | pycodex/agent_identity/__init__.py:615-620 | the constant D is -121665/121666 and the base point lies on the curve |
| `Ed25519.IdentityLeft` | pycodex/agent_identity/__init__.py:658-665 | (0, 1) is the neutral element of the addition, from its coordinates |
| `Ed25519.Commutes` | pycodex/agent_identity/__init__.py:658-665 | addition commutes, from its coordinates |
| `EdwardsCurve.Complete` | pycodex/agent_identity/__init__.py:660-664 | on the curve neither denominator of a sum vanishes, if -1 is a square modulo the prime and d is none |
| `Ed25519.AddOnCurve` | pycodex/agent_identity/__init__.py:658-665 | the sum of two points of the curve is on the curve, if D is no square modulo P |
| `Ed25519.SumIs` | pycodex/agent_identity/__init__.py:658-665 | on the curve the coordinates of a sum times the denominators 1 +- D x1 x2 y1 y2 are x1 y2 + x2 y1 and y1 y2 + x1 x2 modulo P |
| `Ed25519.ScalarMultLoop` | pycodex/agent_identity/__init__.py:668-676 | the loop on points is double-and-add |
| `DoubleAndAdd.Multiply` | pycodex/agent_identity/__init__.py:668-676 | the loop over the bits of the scalar is double-and-add over the given addition |
| `DoubleAndAdd.RunFromZero` | pycodex/agent_identity/__init__.py:668-676 | double-and-add is n-fold addition for every n, over any addition with the laws the addition of points has |
| `Ed25519.ScalarMultIsNFold` | pycodex/agent_identity/__init__.py:668-676 | scalar multiplication is n-fold addition of points for every n, given associativity on the multiples of the point |
| `Ed25519.SignatureEquation` | pycodex/agent_identity/__init__.py:636-638 | reducing s = r + k*a modulo Q loses nothing: [s]B = R + [k]A, given associativity and [Q]B = (0, 1) |
| `Ed25519.SignatureVerifies` | pycodex/agent_identity/__init__.py:623-638 | every signature satisfies the verification equation of section 5.1.7 of RFC 8032, for points of the curve and the digest of first half, public key and message, under the public key derived from the same seed, for every seed, message and hash function |
| `Ed25519.SignatureIs` | pycodex/agent_identity/__init__.py:629-638 | the first half of a signature encodes [r]B, r the digest of the second half of the digest of the seed and the message; the second half is (r + k*a) mod Q, k the digest of the first half, the public key and the message, a the clamped first half of the digest of the seed |
| `Ed25519.PublicKeyIs` | pycodex/agent_identity/__init__.py:623-626 | the public point is [a]B for the clamped first half of the digest of the seed |
| `Ed25519.WitnessIsUnique` | pycodex/agent_identity/__init__.py:623-638 | the point and the scalar a signature is verified with are the only ones it encodes |
| `Ed25519.EncodePointInjective` | pycodex/agent_identity/__init__.py:679-683 | two points of the curve with one 32-byte encoding are equal |
| `Ed25519.EncodedPointIs` | pycodex/agent_identity/__init__.py:679-683 | an encoded point is y, little-endian, with the parity of x in the top bit |
| `Poly1305.Poly1305Mac` | pycodex/agent_identity/__init__.py:599-609 | the loop over 16-byte blocks returns the specified tag |
| `Poly1305.MacIsPolynomial` | pycodex/agent_identity/__init__.py:599-609 | the tag is sum(c_i * r^(n-i+1)) mod 2^130-5, plus s, mod 2^128, for every message including a short last block |
| `Poly1305.MacIs` | pycodex/agent_identity/__init__.py:599-609 | with the coefficients spelled out, each block of 16 bytes, little-endian, and a one behind it, r the first half of the key masked byte by byte and s its second half |
| `Poly1305.ProcessInTurn` | pycodex/agent_identity/__init__.py:604-608 | at a 16-byte boundary the accumulator of a concatenation is that of the parts in turn |
| `Poly1305.ClampOfR` | pycodex/agent_identity/__init__.py:600-601 | the integer mask on r clears exactly the bits that section 2.5 of RFC 8439 clears byte by byte |
| `Salsa20Spec.SalsaCore` | pycodex/agent_identity/__init__.py:557-592 | the word list changed in place by the loop ends at ten double-rounds of the Salsa20 specification: columns, then rows, each quarter-round with 32-bit addition, rotation by 7, 9, 13 and 18 and exclusive or |
| `Salsa20Spec.QuarterIs` | pycodex/agent_identity/__init__.py:560-563 | four assignments of the loop are one quarter-round on their four words |
| `Salsa20Spec.RotationWraps` | pycodex/agent_identity/__init__.py:595-596 | for v < 2^32 `_rotl32` is (v * 2^s) mod 2^32 + v div 2^(32-s): what is shifted out comes back |
| `Bits.XorIsBitwise` | pycodex/agent_identity/__init__.py:560-591 | exclusive or has exactly the bits in which its operands differ |
| `Salsa20.CoreIsBijection` | pycodex/agent_identity/__init__.py:557-592 | the core is a bijection on states of 32-bit words: an explicit inverse undoes the ten double rounds from both sides |
| `Salsa20.CoreKeepsWords` | pycodex/agent_identity/__init__.py:557-596 | every word stays below 2^32, in both directions |
| `Salsa20.RowIsTransposedColumn` | pycodex/agent_identity/__init__.py:576-591 | the second half of a double round is the first half conjugated by transposition |
| `SecretBoxLaws.StatePlaces` | pycodex/agent_identity/__init__.py:534-554 | the sixteen words of the state: the four words of "expand 32-byte k" on the diagonal, the key in words 1-4 and 11-14, the nonce in words 6-9 |
| `SecretBox.StateInjective` | pycodex/agent_identity/__init__.py:534-554 | the initial state determines the 32-byte key and the 16-byte nonce, so no two counters share one |
| `SecretBoxLaws.BlockIsSum` | pycodex/agent_identity/__init__.py:527-531 | every word of a block is the word of the core plus the word of the state modulo 2^32 |
| `SecretBoxLaws.DerivedIsBlockLessInput` | pycodex/agent_identity/__init__.py:509-513 | every word of a derived key is the word of the block at its place (0, 5, 10, 15, 6, 7, 8, 9) less the known word of the state |
| `SecretBox.SalsaStreamLoop` | pycodex/agent_identity/__init__.py:516-524 | the buffer loop yields the stream whose byte i is byte i%64 of block i/64, or the overflow of the 8-byte counter |
| `SecretBox.StreamPrefix` | pycodex/agent_identity/__init__.py:516-524 | a shorter stream is a prefix of a longer one |
| `SecretBox.ConstantTimeEqual` | pycodex/agent_identity/__init__.py:453-459 | the accumulated comparison is equality |
| `SecretBox.SealOutcome` | pycodex/agent_identity/__init__.py:446-450 | sealing fails for no message that fits the block counter and for every one that does not |
| `SecretBox.OpenUndoesSeal` | pycodex/agent_identity/__init__.py:434-450 | opening a sealed box returns the message, for every message, nonce and key |
| `SecretBox.OpenIffSealed` | pycodex/agent_identity/__init__.py:434-450 | opening returns a message exactly for the box that sealing this message produces; every other box is refused |
| `SecretBoxLaws.BoxLayout` | pycodex/agent_identity/__init__.py:446-450 | a box is a 16-byte tag and then the message xored with the stream from byte 32 on; the tag is that of the ciphertext under the first 32 bytes of the stream |
| `SecretBoxLaws.SealedBoxLayout` | pycodex/agent_identity/__init__.py:422-431 | a sealed box is the ephemeral public key and a box under the key derived from the shared value and a zero nonce, its nonce the digest of both public keys, the ephemeral one first |
| `SecretBox.SealedBoxOpenIffSealed` | pycodex/agent_identity/__init__.py:412-431 | the same for the sealed box, whenever the two X25519 products agree |
| `SecretBox.SealedBoxRoundTrip` | pycodex/agent_identity/__init__.py:412-431 | the holder of the secret key opens what was sealed to its public key; agreement of the products is proved; given that p is prime and addition associates |
| `KeyPath.ParseKeyPath` | pycodex/app_server/config_manager_service.py:258-293 | the loop over index, segment and quoted returns what the parser function returns, with the same five errors, and ends although an escape moves the index twice |
| `KeyPath.ParsedIsProper` | pycodex/app_server/config_manager_service.py:258-293 | every accepted path is a non-empty list of non-empty segments |
| `KeyPath.EmptyIff` | pycodex/app_server/config_manager_service.py:259-260 | a path is refused as empty if and only if it is blank |
| `KeyPath.OpenQuote` | pycodex/app_server/config_manager_service.py:272-289 | behind any segments a quote left open is refused as unterminated, with a backslash at its end as an unterminated escape |
| `KeyPath.BadSegment` | pycodex/app_server/config_manager_service.py:276-293 | behind any segments nothing at all or a dot is refused as an empty segment, a quote inside a bare segment as an invalid quote |
| `KeyPath.ParseInvertsPrint` | pycodex/app_server/config_manager_service.py:258-293 | parsing inverts a printer that quotes any chosen segments, for every non-empty list of non-empty segments; the one exception, a lone bare blank segment, is refused |
| `KeyPath.ParseInvertsQuotedPrint` | pycodex/app_server/config_manager_service.py:258-293 | with every segment quoted there is no exception |
| `ConfigTree.SetThenGet` | pycodex/app_server/config_manager_service.py:296-324 | after a set the path reads as the value, whatever was there |
| `ConfigTree.SetFrame` | pycodex/app_server/config_manager_service.py:296-324 | what a set does to every prefix-incomparable path: through a list on its way it reads as nothing, elsewhere as before |
| `ConfigTree.MergeThenGet` | pycodex/app_server/config_manager_service.py:296-324 | after a replace the path reads as the value, after an upsert of a table onto a table as the two merged, otherwise as the value; the answer says whether that differs from what was there |
| `ConfigTree.MergeFrameIff` | pycodex/app_server/config_manager_service.py:296-337 | `apply_merge` leaves a prefix-incomparable path alone if and only if it clears, shares no list with the path, or the path held nothing |
| `ConfigTree.MergeFrame` | pycodex/app_server/config_manager_service.py:296-337 | in particular when no proper prefix of the edited path is a list |
| `ConfigTree.ListOnTheWayIsLost` | pycodex/app_server/config_manager_service.py:306-312 | setting `k.i` over any list loses every element `k.j` it held |
| `ConfigTree.ClearThenGet` | pycodex/app_server/config_manager_service.py:327-337 | after a clear the path reads as nothing, exactly unless it leads to something inside a list |
| `ConfigTree.ClearAnswers` | pycodex/app_server/config_manager_service.py:327-337 | a clear answers whether the path held something outside lists |
| `ConfigTree.ClearFrame` | pycodex/app_server/config_manager_service.py:327-337 | a clear leaves every prefix-incomparable path alone |
| `ConfigTree.MergeIdempotent` | pycodex/app_server/config_manager_service.py:340-345 | merging the same overlay twice is merging it once |
| `ConfigTree.MergeKeepsUntouched` | pycodex/app_server/config_manager_service.py:340-345 | base paths the overlay does not touch keep their value |
| `ConfigTree.MergeTakesOverlay` | pycodex/app_server/config_manager_service.py:340-345 | every value of the overlay is found in the result, except that a table over a table is merged into it |
| `Values.EqualIs` | pycodex/app_server/config_manager_service.py:324 | equality, case by case: numbers and booleans by value, lists by element, tables by key |
| `ConfigHeap.TableObject.Copy` | pycodex/app_server/config_manager_service.py:316-319 | `deepcopy` of a nested table is made of fresh objects with the same content |
| `ConfigHeap.TableObject.MergeInto` | pycodex/app_server/config_manager_service.py:340-345 | the in-place merge changes the base object to the merged content and keeps the objects disjoint |
| `ConfigHeap.TableObject.MergeAt` | pycodex/app_server/config_manager_service.py:303-323 | the descent that creates missing tables, and the store under the last key, on mutable objects |
| `ConfigHeap.TableObject.ClearAt` | pycodex/app_server/config_manager_service.py:327-337 | the in-place clear and its answer |
| `ConfigHeap.TableObject.ApplyMergeInPlace` | pycodex/app_server/config_manager_service.py:296-324 | `apply_merge` on mutable objects has the content and the answer of the value-level function; after a replace or an upsert its content reads as the strategy says |
| `EditLog.ApplyEditsLoop` | pycodex/app_server/config_manager_service.py:122-137 | the edit loop returns the final configuration and the log, or the error of the first rejected edit: a bad path, a legacy profile, an unknown strategy |
| `EditLog.FirstEdit` | pycodex/app_server/config_manager_service.py:122-137 | a bad path, a write to a legacy profile and an unknown strategy end the loop, in this order; any other edit is applied and recorded |
| `EditLog.LoopReturnsRun` | pycodex/app_server/config_manager_service.py:122-137 | when no edit is rejected these are the configuration and log of the whole sequence |
| `EditLog.OneEdit` | pycodex/app_server/config_manager_service.py:126-136 | what is recorded for an edit reproduces it if and only if the value read at the path does not equal the new one, or is the new one with no list on the way; for a clear, unless the key holds None |
| `EditLog.RunReproducedIff` | pycodex/app_server/config_manager_service.py:122-137 | the log follows the configuration through every prefix of a run if and only if every edit meets that condition where it is applied |
| `EditLog.ReplayGivesFinal` | pycodex/app_server/config_manager_service.py:122-137 | then replaying the log on the original configuration gives the one in memory |
| `EditLog.ReplayWithoutNullsAndLists` | pycodex/app_server/config_manager_service.py:122-137 | in particular for every sequence of replace, upsert and clear without None inside, lists on the way or booleans exchanged for equal numbers |
| `EditLog.ListElementSetIsLost` | pycodex/app_server/config_manager_service.py:130-136 | a set of `a.0` over a list that holds the value there is not recorded, though it changes the configuration |
| `EditLog.NullClearIsLost` | pycodex/app_server/config_manager_service.py:130-136 | a clear of a key that holds None is not recorded, though it changes the configuration |
| `EditLog.EqualNumberIsLost` | pycodex/app_server/config_manager_service.py:130-136 | a set of 1 over true is not recorded, though it changes the configuration |
| `TurnJoin.JoinStep` | pycodex/analytics/reducer.py:634-858 | before the last of the three facts any other fact keeps what was collected and emits no event for the turn; the last one emits exactly one |
| `TurnJoin.OneTurnEventAtTheLast` | pycodex/analytics/reducer.py:634-858 | when start response, resolved config and completion occur once each for a turn, with agreeing thread and image count, exactly one turn event is emitted, at whichever arrives last, and it carries the same parameters in all six orders |
| `TurnJoin.TurnEventIff` | pycodex/analytics/reducer.py:634-858 | over every run, with facts repeated, disagreeing or missing: a fact makes one turn event if and only if it is one of the three kinds for the turn and all three have come since the turn was last forgotten |
| `TurnJoin.NoEventWhileOneIsMissing` | pycodex/analytics/reducer.py:2201-2215 | over every run, while one of the three has not come there is no turn event |
| `ReducerEvents.TurnEventCarries` | pycodex/analytics/reducer.py:834-858 | a turn event carries every field as it was last set since the turn was last forgotten, and the lines of its latest diff come with it |
| `ReducerEvents.TurnCounts` | pycodex/analytics/reducer.py:2201-2263 | the counts in it are the accepted steers and the completed items of the turn, by kind |
| `ReducerEvents.LiveIs` | pycodex/analytics/reducer.py:634-741 | the reducer keeps a state exactly for the turns it has heard of since they were last forgotten |
| `ReducerHistory.SteerEventIff` | pycodex/analytics/reducer.py:606-690 | an answer to a steer makes exactly one event, for the request last tracked under its key and the accepted turn, if and only if a steer was tracked there and not taken out or overwritten since; no other fact makes one |
| `ReducerHistory.SteersAreAccepted` | pycodex/analytics/reducer.py:678-680 | the steer count of a live turn is the number of steers accepted since its state was created |
| `ReducerLaws.SteerConservation` | pycodex/analytics/reducer.py:581-690 | every steer tracked was answered by an event, is still pending, or was lost to another fact under its key |
| `ReducerEvents.ToolEventIff` | pycodex/analytics/reducer.py:784-832 | a completion makes exactly one tool event, with the item, its start and a summary of its reviews, if and only if it closes an open start of a tracked item of a live turn, is in order and of an item that is reported; no other fact makes one |
| `ReducerLaws.ToolConservation` | pycodex/analytics/reducer.py:769-832 | every item start made a tool event, is still open, or was lost to another start or a completion that is not reported |
| `ReducerHistory.ReviewEventIff` | pycodex/analytics/reducer.py:947-1103 | an answer or abort makes exactly one review event, for the review last tracked under its id, unless an unknown reviewer answers for an item; a concluded guardian review in order makes one; no other fact does |
| `ReducerLaws.ReviewConservation` | pycodex/analytics/reducer.py:986-1040 | every pending review tracked was answered by an event, is still pending, or was lost |
| `ReducerLaws.CountsAreCompletions` | pycodex/analytics/reducer.py:281-303 | for each live turn the total is the sum of the seven counters and each counter is the number of tracked completions of its kind since the turn was created |
| `ReducerLaws.SummaryCountsReviews` | pycodex/analytics/reducer.py:919-945 | the summary of an item counts the reviews recorded since the item was last closed, in all and by reviewer |
| `ReducerEvents.SummaryIs` | pycodex/analytics/reducer.py:919-945 | with the outcome of the last review by a known reviewer since then, and whether any asked for permissions or the network |
| `ReducerLaws.ReviewCountSplits` | pycodex/analytics/reducer.py:919-942 | after every run the review count of an item is the guardian count plus the user count plus the reviews by unknown reviewers since it was last closed, so it splits if and only if there are none |
| `ReducerLaws.UnknownReviewerBreaksTheSplit` | pycodex/analytics/reducer.py:925-938 | a run in which it does not split: an unknown reviewer is counted before the error is raised |
| `ReducerLaws.ToolEventReportsReviews` | pycodex/analytics/reducer.py:784-832 | a tool event carries the start time of its item and the reviews recorded since the item was last closed |
| `ReducerObject.AnalyticsReducer.Conservation` | pycodex/analytics/reducer.py:374-381 | of the object between any two calls: all steers, item starts and reviews asked for are answered by events, pending, or lost to a later fact, by its history of facts |
| `ReducerObject.AnalyticsReducer.Counts` | pycodex/analytics/reducer.py:281-303 | of the object between any two calls: the counts of every live turn balance and the reviews of every item split by reviewer, up to unknown ones |
| `ReducerObject.AnalyticsReducer.IngestTurnStartResponse` | pycodex/analytics/reducer.py:634-659 | extends the history by one fact and returns its events; one turn event if and only if the three kinds have now come |
| `ReducerObject.AnalyticsReducer.IngestTurnSteerResponse` | pycodex/analytics/reducer.py:661-690 | extends the history; one accepted steer event for the request last tracked under the key, if it is a pending steer |
| `ReducerObject.AnalyticsReducer.IngestTurnSteerErrorResponse` | pycodex/analytics/reducer.py:606-632 | the same for a rejected steer |
| `ReducerObject.AnalyticsReducer.IngestTurnResolvedConfig` | pycodex/analytics/reducer.py:692-709 | the same for the resolved configuration |
| `ReducerObject.AnalyticsReducer.IngestTurnCompleted` | pycodex/analytics/reducer.py:722-741 | the same for the completion, which forgets the turn when it made an event |
| `ReducerObject.AnalyticsReducer.IngestItemCompleted` | pycodex/analytics/reducer.py:784-832 | extends the history; at most one event, a tool event that reports the reviews since the item was last closed |
| `ReducerObject.AnalyticsReducer.IngestReviewResponse` | pycodex/analytics/reducer.py:1014-1040 | extends the history; raises if and only if the fact records a review by an unknown reviewer |
| `ReducerObject.AnalyticsReducer.IngestGuardianReviewCompleted` | pycodex/analytics/reducer.py:1064-1103 | extends the history; raises if and only if the status is unknown or, of a concluded review in order, the action is |
| `Outgoing.IdsAreFresh` | pycodex/app_server/outgoing_message.py:344-347 | no id is issued twice, under every interleaving |
| `Outgoing.RegistrationNeverOverwrites` | pycodex/app_server/outgoing_message.py:203-205 | registering a callback replaces no pending one |
| `Outgoing.TakenOnce` | pycodex/app_server/outgoing_message.py:224-279 | of the response, error, cancel, cancel-all, cancel-thread and send-failure steps at most one takes the callback of a request |
| `Outgoing.PendingIffUnanswered` | pycodex/app_server/outgoing_message.py:195-279 | a callback is pending if and only if the history shows its request registered and not yet taken |
| `Outgoing.ResultIffDelivered` | pycodex/app_server/outgoing_message.py:224-279 | a waiter holds a result if and only if that result was delivered to it, while it was waiting, by the step that took its callback |
| `Outgoing.AbandonedIff` | pycodex/app_server/outgoing_message.py:433-435 | a waiter is abandoned if and only if its owner cancelled it before any result was delivered to it |
| `Outgoing.CancelThreadIsExact` | pycodex/app_server/outgoing_message.py:265-279 | by the history: after a thread cancel exactly the unanswered requests of other threads are pending, and exactly the waiters of the taken ones that still wait are given the reason; the thread may be None |
| `Outgoing.ReplayIsUnanswered` | pycodex/app_server/outgoing_message.py:256-263 | the pending requests of a thread, by id, are exactly its unanswered requests in issue order |
| `Outgoing.ReplayPutsTheUnanswered` | pycodex/app_server/outgoing_message.py:220-222 | under every interleaving the puts of a replay are, in issue order, the requests of the thread that were unanswered when it began, each to its connection |
| `Outgoing.SendPutsItsTargets` | pycodex/app_server/outgoing_message.py:207-214 | under every interleaving the i-th put of a send appends its request, with the id and payload it was issued with, for the i-th of the targets it was issued for |
| `Outgoing.OnlyPutsQueue` | pycodex/app_server/outgoing_message.py:207-222 | nothing but the puts of sends and replays changes the queue |
| `OutgoingObject.OutgoingMessageSender.BeginSend` | pycodex/app_server/outgoing_message.py:195-202 | `send_request_to_connections` up to its first await: extends the history and returns a fresh id; without connections the target is everyone, otherwise each connection in turn |
| `OutgoingObject.OutgoingMessageSender.RegisterCallback` | pycodex/app_server/outgoing_message.py:203-205 | the registration under the lock adds an entry and replaces none |
| `OutgoingObject.OutgoingMessageSender.PutNext` | pycodex/app_server/outgoing_message.py:207-214 | puts the request as it was issued for the next of its targets |
| `OutgoingObject.OutgoingMessageSender.NotifyClientResponse` | pycodex/app_server/outgoing_message.py:224-229 | extends the history by a response |
| `OutgoingObject.OutgoingMessageSender.Cancel` | pycodex/app_server/outgoing_message.py:239-245 | extends the history; the request is found if and only if it is unanswered |
| `OutgoingObject.OutgoingMessageSender.CancelAllRequests` | pycodex/app_server/outgoing_message.py:247-254 | extends the history and leaves nothing pending; the loop settles the waiters |
| `OutgoingObject.OutgoingMessageSender.CancelRequestsForThread` | pycodex/app_server/outgoing_message.py:265-279 | extends the history; pending requests and waiters are by history those of thread cancel |
| `OutgoingObject.OutgoingMessageSender.PendingRequestsForThread` | pycodex/app_server/outgoing_message.py:256-263 | filtering the entries and sorting them by id gives the unanswered requests of the thread in issue order |
| `OutgoingObject.OutgoingMessageSender.StartReplay` | pycodex/app_server/outgoing_message.py:220-222 | extends the history by a replay that has these requests to put |
| `OutgoingObject.OutgoingMessageSender.PutReplayed` | pycodex/app_server/outgoing_message.py:222 | puts the next of them |
| `DiffScan.ScanDiff` | pycodex/analytics/accepted_lines.py:39-66 | the loop over the lines returns the counts and fingerprints of the scanner function |
| `DiffText.SplitsAt` | pycodex/analytics/accepted_lines.py:45 | a line ends at each of ten break characters, at a carriage return with a newline only once |
| `DiffText.PathIs` | pycodex/analytics/accepted_lines.py:90-94 | a name is read without the space around it; the null device is no path, a leading a/ or b/ is dropped |
| `DiffText.EffectiveIff` | pycodex/analytics/accepted_lines.py:96-102 | an added line is effective if and only if its words with single spaces are longer than three characters and have one that is alphanumeric or an underscore; it is fingerprinted in this form |
| `DiffText.EveryLine` | pycodex/analytics/accepted_lines.py:97 | every line is words with space between and around them |
| `DiffLaws.SplitsToPieces` | pycodex/analytics/accepted_lines.py:45 | splitting a text of lines gives the pieces of each line in turn: more than one where another line break stands inside |
| `DiffLaws.ScanRendered` | pycodex/analytics/accepted_lines.py:39-102 | scanning a diff rendered from structured files with `diff --git` lines, whatever its hunk lines hold, counts the pieces of those lines under their file's normalised new path; from a piece that looks like a `diff --git` line on, the rest of that file is scanned on its own |
| `DiffLaws.CountsExactIff` | pycodex/analytics/accepted_lines.py:45-66 | both counts are those of the added and removed lines plus those of stray pieces behind a break less the pieces read as names after a hidden `diff --git` line, so they are exact if and only if these two balance |
| `DiffLaws.ScanInvertsRender` | pycodex/analytics/accepted_lines.py:39-102 | with no break inside hunk lines, of either line ending, the counts are exact and there is, in order, one fingerprint per effective added line, also when body lines look like headers |
| `DiffLaws.BreakInsideIsCounted` | pycodex/analytics/accepted_lines.py:45-66 | a context line with any other break followed by a plus sign is counted as an added line |
| `DiffLaws.WithoutGitLines` | pycodex/analytics/accepted_lines.py:46-66 | of named files without `diff --git` lines each one after the first with a hunk adds one to both counts, and all fingerprints are filed under the path of that first file; the counts are exact if and only if there is none |
| `DiffLaws.SecondNamesAreCounted` | pycodex/analytics/accepted_lines.py:52-66 | so of any two such files, the first with a hunk, the second has its names counted |
| `DiffLaws.SecondNamesInText` | pycodex/analytics/accepted_lines.py:52-66 | the shortest such texts: no changed line, and one counted each way |
| `CfgExpr.SplitCfgArguments` | parity_harness/contracts/anchors.py:38-51 | the loop returns the non-empty stripped pieces between the commas at depth zero |
| `CfgExpr.SplitRecoversChildren` | parity_harness/contracts/anchors.py:38-51 | on a printed argument list, with space and a trailing comma anywhere, it returns exactly the printed children in order |
| `CfgExpr.TextDecides` | parity_harness/contracts/anchors.py:54-68 | on the text of every nested all/any/not predicate the string recursion decides what the syntax says |
| `CfgExpr.AcceptedNeedsTest` | parity_harness/contracts/anchors.py:54-68 | an accepted predicate is false in every environment where `test` is false |
| `CfgExpr.AcceptedIffNeedsTest` | parity_harness/contracts/anchors.py:54-68 | without `not` and empty `any()` accepted means exactly that |
| `CfgExpr.EmptyAnyIsRefused` | parity_harness/contracts/anchors.py:65-66 | an empty `any()` is never true and refused all the same |
| `CfgExpr.DoubleNegationIsRefused` | parity_harness/contracts/anchors.py:67 | a double negation of a predicate that needs `test` is refused |
| `Acceptance.Evaluate` | parity_harness/acceptance/evaluator.py:81-209 | the verdict of the evaluator is a function of the multiset of results, so no permutation changes it, with the roles, provenance marks and statuses that count spelled out; findings, evidence and layer verdicts are those of its loops |
| `Acceptance.PlacementIsOrderFree` | parity_harness/acceptance/evaluator.py:88-107 | the loop that keeps the last result per layer reports an error exactly when some result is foreign or a layer repeats |
| `Acceptance.EvidenceIsOrderFree` | parity_harness/acceptance/evaluator.py:122-147 | comparing each record only with the latest of its id reports an error exactly when any two records of one id differ, or one evaluates itself |
| `Acceptance.FailureIsOrderFree` | parity_harness/acceptance/evaluator.py:185-187 | hard failure, read off the kept results and the findings, is the order-free condition |
| `Acceptance.IncompleteIsOrderFree` | parity_harness/acceptance/evaluator.py:188-196 | short of failure incompleteness is order-free too, and what remains is verified in every kept layer, so the last branch is never taken |
| `Acceptance.FailedIsAbsorbing` | parity_harness/acceptance/evaluator.py:190-191 | a failed verdict stays failed whatever results are added |
| `TraceCompare.Exact` | parity_harness/dynamic/trace.py:293-306 | one finding for each index where the traces differ |
| `TraceCompare.Subsequence` | parity_harness/dynamic/trace.py:309-324 | the greedy scan succeeds exactly when the expected events are a subsequence of the actual ones |
| `TraceCompare.Duplicates` | parity_harness/dynamic/trace.py:327-339 | one finding for each key that occurs more often than expected, in order of first occurrence |
| `TraceCompare.Compare` | parity_harness/dynamic/trace.py:229-290 | errors for an unknown strategy and for differing contracts, inconclusive without an executable baseline, otherwise the findings of the strategy |
| `TraceCompare.ExactIff` | parity_harness/dynamic/trace.py:293-306 | `exact` verifies a comparable pair if and only if the normalised events are equal one by one |
| `TraceCompare.StateInvariantIff` | parity_harness/dynamic/trace.py:342-353 | `state-invariant` verifies a comparable pair if and only if the events that hold a state are as many in both, with the same states in turn |
| `TraceCompare.OutcomeLinkedIff` | parity_harness/dynamic/trace.py:355-367 | `outcome-linked` verifies a comparable pair if and only if the reference events are found in order among the candidate's and both refer to the same outcomes |
| `TraceCompare.SurplusNames` | parity_harness/dynamic/trace.py:327-339 | the surplus findings name exactly the keys that occur more often than expected |
| `TraceCompare.OrderedIffExact` | parity_harness/dynamic/trace.py:259-263 | `ordered-subsequence` verifies a pair if and only if `exact` does and the two traces have the same multiset of keys |
| `TraceCompare.OrderedIsExact` | parity_harness/dynamic/trace.py:259-263 | the two strategies verify the same pairs where equal events have one key |
| `TraceCompare.ExactButNotOrdered` | parity_harness/dynamic/trace.py:95-96 | `true` and `1` are equal: if an event with the one has another key than the event with the other, the pair passes `exact` and fails `ordered-subsequence` |
| `TraceCompare.ExactImpliesWeaker` | parity_harness/dynamic/trace.py:259-268 | a pair verified by `exact` is verified by the two weaker strategies |
| `TraceCompare.NormalizeTwice` | parity_harness/dynamic/trace.py:62-73 | normalising is idempotent if it is so on single strings |
| `TraceCompare.NoiseIsIgnored` | parity_harness/dynamic/trace.py:62-73 | traces that differ only in non-semantic keys, at whatever depth, have the same comparisons under every strategy |
| `Reachable.ReachableModules` | parity_harness/maintenance/audit.py:50-62 | the worklist returns exactly the modules at the end of a path of imports from the entry, on any cyclic graph and for an entry that is no module |
| `Reachable.PushImports` | parity_harness/maintenance/audit.py:59-61 | one module pushes exactly the ends of its edges: the imported module and all modules of an imported package |
| `Reachable.ReachableIsLeast` | parity_harness/maintenance/audit.py:50-62 | the result is the least set that holds the entry and that no import leaves |

## Left out

- Secrecy, timing and unforgeability of the cryptography: only functional correctness is stated.
- SHA-512, BLAKE2b, SHA-1, base64, JSON and TOML text: library code. JWT and JWKS handling, RS256, task registration,
  clocks and randomness are input and output; `_xrecover` has no caller.
- Primality of 2^255 - 19, that D is no square, the order of the base point and the associativity of the curve:
  hypotheses, listed above.
- ConfigHeap.TableObject.MergeAt: the objects recurse where the source walks down in a loop.
- EditLog.ApplyEditsLoop: works on values; the step it repeats is proved on mutable objects in `ConfigHeap`. Its set
  and clear edits have the meaning of this file's own functions; the TOML editor that writes them to disk, the
  configuration layers, versions and overrides are not part of this model.
- ConfigHeap.DeepCopy: aliasing between the stored value and the caller's value is excluded by the copy, as in the
  source; values inside lists are never changed in place and are modelled as values.
- Numbers are integers or exact reals: rounding, infinities and NaN are not modelled.
- ReducerObject.AnalyticsReducer: turn states and counters are values inside the maps, so the object identity of a turn
  state is not modelled. Events keep the fields the theorems mention; the builders that copy the others, the alias
  tables of item kinds and statuses, token usage, initialisation, threads, compaction, hooks and plugins are not
  modelled. Whether a thread is known, an item status terminal and a guardian action known are inputs of the fact.
- OutgoingObject.OutgoingMessageSender: an await is a point between labels; the queue keeps its envelopes and never
  fails by itself, a failing put or tracking call is the withdraw step. Ids are 64-bit: a run has no allocation after
  the last one, where the source raises. Request contexts, responses, notifications, analytics calls and tracing are
  left out.
- SecretBox.SalsaStreamLoop: a stream of 2^64 blocks or more is an overflow error, as `to_bytes` raises; the block is a
  parameter of the loop.
- DiffLaws.ScanRendered: header lines are those a tool writes: no break inside, either line ending.
- DiffLaws.WithoutGitLines: for texts without a hidden `diff --git` line behind a break.
- MontgomeryCurve.TopBitMatters: separates the coordinates that are read, not the 32-byte results.
- CfgExpr.TextDecides: atoms have no commas or parentheses, so string literals that contain them are not covered, nor
  is space between an operator and its parenthesis.
- `production_rust_text` and the other scanners of Rust text in `anchors.py`: regular expressions.
- Acceptance.Evaluate: messages, evidence types and the coordinates copied into the report are left out; evidence
  records are compared as values.
- TraceCompare.Compare: messages and constant texts of the result are left out; the normalisation of one string (paths,
  roots) is a parameter.
- Reachable.ReachableModules: reading the imports out of Python files is an input.
- Request routers, protocol adapters, projections, cursor pagination and the connection gate: tables and bookkeeping
  that would only add easy members.
