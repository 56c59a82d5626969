# Vernex verification

Dafny models of the parts of Vernex that carry most of its correctness: secret sharing for the root key, the
priority scheduler with its consent gate, the rate limiter, the certificate authority, the clock check, the signed
OAuth state, and the game's inventory, combat, prompt window and response limit. Code that works by changing
variables, fields, slices or maps is written as methods and classes and proved against functions; what the code
promises is then proved of those functions, for all inputs and over whole runs.

`dafny verify dfyconfig.toml` checks everything.

## Modules

| module | what it holds |
|---|---|
| `Integers` | bytes and the bounds of an int64 |
| `BinaryPolynomials`, `BinaryEvaluation` | polynomials over GF(2) as natural numbers: exclusive or, carry-less product, unique remainder; evaluation of literal ones |
| `GF256` | the field of section 4.2 of FIPS 197 as `gf256Mul` and `gf256Inv` compute it |
| `Interpolation` | polynomials over that field: few roots, unique interpolation, Lagrange's formula |
| `Shamir` | `ShamirSplit` and `ShamirCombine`: round trip, and threshold exactness |
| `Recovery` | exactly which lists of shares, repeats included, give back every secret |
| `RequestQueue`, `Scheduler` | the heap with the two sift loops of Go's `container/heap`, refined to a sorted list; whole runs of arrivals and services |
| `CommonsReview` | `/submit`, `/consent` and the expiry loop as interleaved atomic steps |
| `ConsentedService` | the two machines together: when the worker serves what /consent released |
| `RateLimiter` | buckets compacted and pruned, against the full history of admissions |
| `Certificates`, `TrustStore`, `Enrollment` | issuing, pulling, storing and verifying certificates, and single-use tokens, over an unknown signature scheme |
| `ClockCheck` | the NTP median and the decision ladder |
| `Text`, `Base64Url`, `OAuthState` | the printer and the parser of the signed state |
| `Inventory`, `Combat`, `PromptWindow`, `ResponseLimit` | the game server |

## Where the code does not do what is said of it

* The architecture document (section 3.2) promises that a user never loses a request. A /consent call that reads the
  clock after the expiry and before a tick of the expiry loop has removed the review does lose it: after any run, the
  call loses the request if and only if the expiry has passed (`CommonsReview.LateConsentLosesRequest`), in every run
  a review is discarded exactly by such a late check (`CommonsReview.DiscardedExactly`), and nothing brings it back
  (`CommonsReview.LostForGood`). What holds of all reviews is `CommonsReview.EveryReviewIsAccountedFor`.
* A difference of times saturates at the least int64, and `absDuration` gives that number back unchanged: a bootstrap
  answer passes with the drift -2^63 if and only if it is 2^63 ns or more ahead of the local clock
  (`ClockCheck.FarFuturePasses`). An NTP answer, with seconds of 32 bits, does not reach that far.
  `ClockCheck.JudgeExact` says exactly when the threshold holds.
* `seqNext` is an int64. A new request goes behind everything waiting in its class if and only if the counter is not
  about to wrap or nothing of its class waits, and ahead of all of it otherwise (`Scheduler.NewcomerIsLast`). The
  results over runs are stated up to that point.
* The memory of used tokens is the file: a call that succeeded once succeeds again if and only if its token is not in
  used_tokens.json as it then is (`Enrollment.AcceptedAgain`). After a certificate issued over a file that is missing
  or does not parse, every token used before passes again (`Enrollment.UnreadableFileForgets`).
* `ShamirCombine` is said to reconstruct from K or more shares and does not check that they are different. A repeated
  share has weight zero, so when every share is repeated the answer is zeros (`Recovery.AllRepeated`), and fewer than
  k shares that occur once never give back every secret (`Recovery.NeedsUnrepeated`). Exactly which lists do is
  `Recovery.RecoversExactly`; for different shares, k of them are needed and enough
  (`Recovery.DistinctSharesRecover`), and of exactly k shares none may be repeated (`Recovery.ExactlyKShares`). Empty shares make the function panic (the error `Panic`).
* `AddIntermediate` reports success for any certificate whose common name the store holds, and keeps nothing: a renewed
  intermediate of the same name is not kept (`TrustStore.KeptExactly`).
* `_enforce_response_length` promises at most three content lines besides the HUD line. Four content lines and no
  HUD line pass (`ResponseLimit.ThreeLinesBesideTheHud` is the exact condition), and its second test for three lines
  never fires (`ResponseLimit.ShortenedExactly`).

## Model

| member | source | states |
|---|---|---|
| BinaryPolynomials.XorIsDigitwise | daemon/ca/root.go:133-138 | the exclusive or of the model is that of the binary digits, and only it |
| GF256.Gf256Mul | daemon/ca/root.go:129-143 | the eight-round shift-and-xor loop computes the field product |
| GF256.MulIsTheRemainder | daemon/ca/root.go:126-143 | that product is the one and only remainder of the product of the two polynomials on division by x^8+x^4+x^3+x+1 |
| GF256.MulComm | daemon/ca/root.go:129-143 | multiplication is commutative |
| GF256.MulAssoc | daemon/ca/root.go:129-143 | multiplication is associative |
| GF256.MulRightAdd | daemon/ca/root.go:129-143 | multiplication distributes over exclusive or |
| GF256.Irreducible | daemon/ca/root.go:126 | 0x11B is not a product of polynomials of lower degree, so the bytes form a field |
| GF256.NoZeroDivisors | daemon/ca/root.go:129-143 | a product is zero only if a factor is |
| GF256.PowOrder | daemon/ca/root.go:145-158 | every byte but zero has 255th power one, which is why the 254th power inverts |
| GF256.InvIsInverse | daemon/ca/root.go:145-158 | the 254th power of a non-zero byte is its inverse, and its only one |
| GF256.Gf256Inv | daemon/ca/root.go:145-158 | the square-and-multiply loop computes that power, and zero for zero |
| Interpolation.EvalLast | daemon/ca/root.go:178-183 | the value of a polynomial is the sum of its coefficients times the powers of x |
| Interpolation.TooManyRoots | daemon/ca/root.go:190-220 | a polynomial with as many distinct roots as coefficients is zero |
| Interpolation.InterpolantIsUnique | daemon/ca/root.go:190-220 | exactly one polynomial with n coefficients passes through n points with distinct x |
| Interpolation.LagrangeIsEval | daemon/ca/root.go:203-216 | Lagrange's formula on enough distinct points of a polynomial is the value of the polynomial |
| Shamir.EvaluateShare | daemon/ca/root.go:178-184 | summing coefficients times powers of x is the value of the polynomial |
| Shamir.ShamirSplit | daemon/ca/root.go:161-188 | refused exactly when k < 2, k > n or n > 255, failing exactly when a random read does; otherwise share i starts with i + 1 and each further byte is the value there of the polynomial with that byte of the secret and its random coefficients |
| Shamir.LagrangeWeight | daemon/ca/root.go:206-214 | numerator and denominator of one weight at zero |
| Shamir.ShamirCombine | daemon/ca/root.go:191-220 | each error exactly when it occurs; otherwise Lagrange's formula at zero for each byte |
| Shamir.RoundTrip | daemon/ca/root.go:161-220 | for 2 ≤ k ≤ n ≤ 255, any selection, in any order, of at least k different shares gives back the secret, whatever its length and whatever the random bytes |
| Shamir.ByteFromShares | daemon/ca/root.go:202-218 | every byte of the answer is the value at 0 of any polynomial through the shares with at most as many coefficients, whoever made them |
| Shamir.ThresholdExact | daemon/ca/root.go:170-186 | for any k-1 shares with any bytes, and any secret of that length, exactly one choice of random coefficients produces those shares |
| Recovery.RepeatedWeight | daemon/ca/root.go:207-215 | in every list, a share whose x coordinate occurs again has weight zero |
| Recovery.AllRepeated | daemon/ca/root.go:191-220 | when every x coordinate occurs again, the answer is zeros |
| Recovery.NeedsUnrepeated | daemon/ca/root.go:190-220 | a list of shares that gives back every secret has at least k shares that occur once |
| Recovery.RecoversExactly | daemon/ca/root.go:190-220 | any list of shares, repeats included, gives back every secret if and only if Lagrange's formula on its x coordinates gives the values at 0 of the first k powers |
| Recovery.DistinctSharesRecover | daemon/ca/root.go:190-220 | different shares give back every secret if and only if there are at least k |
| Recovery.ExactlyKShares | daemon/ca/root.go:190-220 | exactly k shares, with any repeats, give back every secret if and only if they are all different |
| Recovery.RepeatsMayRecover | daemon/ca/root.go:203-216 | repeats do not decide longer lists: with k = 2, share 1 three times and shares 188 and 189 give back every secret |
| RequestQueue.UpStep | daemon/scheduler.go:45-51 | one swap of the upward sift keeps heap order everywhere but at the new position |
| RequestQueue.DownStep | daemon/scheduler.go:45-51 | one swap of the downward sift keeps heap order everywhere but below the new position |
| RequestQueue.RootIsFirst | daemon/scheduler.go:45-50 | no entry of a heap precedes its root |
| RequestQueue.Queue.Push | daemon/scheduler.go:52-80 | keeps heap order and adds exactly the item pushed |
| RequestQueue.Queue.Pop | daemon/scheduler.go:53-114 | keeps heap order, removes exactly the item returned, and nothing precedes it |
| Scheduler.Scheduler.Enqueue | daemon/scheduler.go:77-83 | in every state, the heap goes on holding the list with the stamped request inserted at its place; the list stays sorted unless the stamp is in use |
| Scheduler.Scheduler.Dequeue | daemon/scheduler.go:108-115 | takes an entry that nothing waiting precedes, and leaves exactly the others; from a sorted list, the first |
| Scheduler.InsertPlace | daemon/scheduler.go:45-50 | a new community request goes after all community requests and before all personal ones, a new personal one last |
| Scheduler.Tracked | daemon/scheduler.go:77-115 | through every run, a waiting request is where it was, plus the arrivals that went ahead, minus the services, until it is served |
| Scheduler.ServicePosition | daemon/scheduler.go:77-115 | it is served next exactly when the services so far equal the entries ahead of it plus those arrivals |
| Scheduler.PositionOnArrival | daemon/scheduler.go:77-115 | a community request is served after exactly the community requests it found, whatever comes later; a personal one after all it found and the later community ones |
| Scheduler.EveryRunIsOrderly | daemon/scheduler.go:61-115 | served plus waiting is what arrived, each once; within a class, service is in order of arrival |
| Scheduler.NewcomerIsLast | daemon/scheduler.go:67-79 | a new request goes behind everything waiting in its class if and only if the counter does not wrap on it or nothing of its class waits; if it wraps, ahead of all of it |
| CommonsReview.InvStep | daemon/handlers.go:113-239 | every step of /submit, /consent and expiry keeps the four-way partition of reviews, their stored contents, and the class that the one call which took a review answered |
| CommonsReview.EveryReviewIsAccountedFor | daemon/handlers.go:113-239 | in every interleaving a review is exactly one of pending, in a /consent call, enqueued (once), or discarded by a consent after its expiry |
| CommonsReview.ConsentGate | daemon/handlers.go:210-239 | in every run, a request released by a consent has class 1 or 2 as the one call that took its review answered; one that no call took has class 2; the prompt and the model are those stored |
| CommonsReview.ConsentDecides | daemon/handlers.go:224-233 | class 1 if and only if the call that took the review asked for the upgrade, and class 2 if and only if it refused |
| CommonsReview.ConsentComesFirst | daemon/handlers.go:211-239 | the call that took the review and chose its class precedes the enqueueing |
| CommonsReview.TakenExactly | daemon/handlers.go:210-219 | the recorded answer of a review is the one of the /consent call that found it pending; calls that find nothing leave no trace |
| CommonsReview.CreatedExactly | daemon/handlers.go:116-128 | a review is stored exactly as submitted, to expire 60 s later |
| CommonsReview.SubmissionsConserved | daemon/handlers.go:148-156 | the requests that are not held back reach the queue one for one, in order, with their class, prompt, model and justification |
| CommonsReview.TimedOutExactly | daemon/scheduler.go:288-301 | a review runs by itself if and only if some tick finds it pending after its expiry |
| ConsentedService.FedTwoClasses | daemon/handlers.go:84-156 | every request that /submit, /consent and expiry hand to the scheduler is of class 1 or 2 |
| ConsentedService.ConsentedIsServed | daemon/handlers.go:210-239 | over both machines: a request released by a consent is served after exactly the community requests it finds if the user raised it, and after all it finds and the later community ones if not |
| CommonsReview.DiscardedExactly | daemon/handlers.go:220-223 | in every run, a review is discarded if and only if some call held it and read the clock after its expiry |
| CommonsReview.LostForGood | daemon/handlers.go:210-239 | a discarded review is never pending, held or enqueued in any longer run |
| CommonsReview.LateConsentLosesRequest | daemon/handlers.go:211-239 | after any run, a /consent call for a pending review that runs undisturbed discards it if the expiry has passed, and enqueues it with the class chosen otherwise |
| CommonsReview.Node.Submit | daemon/handlers.go:84-156 | a class other than 1 and 2 is refused; a class 2 request assessed as of benefit is held back, and only such a one; any other is enqueued as asked |
| CommonsReview.Node.OpenReview | daemon/handlers.go:113-131 | stores the review with its time of expiry |
| CommonsReview.Node.TakeReview | daemon/handlers.go:211-219 | removes and returns the review, or finds none |
| CommonsReview.Node.CheckExpiry | daemon/handlers.go:220-223 | discards the review exactly when it has expired |
| CommonsReview.Node.EnqueueConsented | daemon/handlers.go:224-239 | enqueues the stored request with class 1 for an upgrade and 2 otherwise |
| CommonsReview.Node.Tick | daemon/scheduler.go:284-307 | enqueues each expired review once with class 2, in any order, and keeps exactly the others |
| RateLimiter.RateLimiter.Compact | daemon/scheduler.go:235-241 | overwriting the slice while ranging over it leaves exactly the times after the cutoff, in order |
| RateLimiter.RateLimiter.Allow | daemon/scheduler.go:228-248 | the decision and the new bucket |
| RateLimiter.RateLimiter.PruneEmpty | daemon/scheduler.go:252-268 | removes exactly the keys without a time after the cutoff |
| RateLimiter.PrunedExactly | daemon/scheduler.go:256-267 | a key stays if and only if some admission of it is in the window, and then with all it holds |
| RateLimiter.RecentMembers | daemon/scheduler.go:237-241 | compaction keeps exactly the admissions after the cutoff, as often as they occur |
| RateLimiter.OthersStay | daemon/scheduler.go:242-247 | a decision leaves the buckets of other keys alone |
| RateLimiter.DecisionCountsHistory | daemon/scheduler.go:228-268 | a decision on the buckets is the decision on the full history of admissions |
| RateLimiter.Bound | daemon/scheduler.go:228-248 | with a clock that does not go back, no window (x-window, x] holds more than limit admissions of a key |
| RateLimiter.RejectionIsExact | daemon/scheduler.go:242-247 | a request is rejected if and only if exactly limit admissions lie in the window that ends now |
| RateLimiter.PruningIsTransparent | daemon/scheduler.go:252-268 | leaving out the prunes of a run changes no decision and no admission |
| Certificates.CertAccepted | daemon/ca/root.go:53-97 | a certificate verifies if and only if every field but the signature is signed under the key, and the time is within its validity |
| Certificates.SelfSignedAccepted | daemon/ca/sync.go:146-160 | self-signed if and only if subject and issuer have one name and it verifies under its own key |
| Certificates.IntermediateIssued | daemon/ca/root.go:374-406 | issued if and only if there are a key and a request signed with the key it names; and every field of the certificate |
| Certificates.NodeCertIssued | daemon/ca/intermediate.go:178-197 | every field of a node certificate, and what its signature covers |
| TrustStore.PulledExactly | daemon/ca/sync.go:91-137 | a missing root.crt is taken over if and only if self-signed and valid, a missing intermediate.crt if and only if the root on file signed it and it is valid; nothing else changes |
| TrustStore.LoadedExactly | daemon/ca/verify.go:32-67 | with readable files, exactly the trusted list and, under a new name, the local intermediate are loaded; none when the root or the list does not parse |
| TrustStore.VerifiedExactly | daemon/ca/verify.go:171-203 | accepted if and only if the first intermediate of the issuer's name signed every field and the time is within the validity |
| TrustStore.Directory.PullCASync | daemon/ca/sync.go:91-137 | writes a missing root.crt only if self-signed, and a missing intermediate.crt only if signed by the root on file |
| TrustStore.TrustStore.Load | daemon/ca/verify.go:32-67 | what is loaded from the three files, and where a file that does not parse ends the loading |
| TrustStore.TrustStore.HasIntermediate | daemon/ca/verify.go:132-139 | found if and only if some certificate has the name |
| TrustStore.TrustStore.AddIntermediate | daemon/ca/verify.go:143-167 | the outcome, the new list and the new file in each case |
| TrustStore.TrustStore.VerifyCert | daemon/ca/verify.go:171-203 | the validity, then the first intermediate with the issuer's name decides |
| TrustStore.InvStep | daemon/ca/verify.go:32-166 | pulling, loading and adding keep the invariant of files and stores, and never change root.crt |
| TrustStore.EveryRunIsTrusted | daemon/ca/sync.go:91-160 | from an empty directory, every certificate on file or in a store is signed under the one root key, with names unique |
| TrustStore.AcceptedIsChained | daemon/ca/verify.go:171-203 | in every run, a certificate that any store accepts is signed by an intermediate of the issuer's name which is signed by the one root |
| TrustStore.RootNeverChanges | daemon/ca/sync.go:94-109 | once written, root.crt is the same after every run |
| TrustStore.KeptExactly | daemon/ca/verify.go:143-159 | AddIntermediate keeps a new certificate if and only if its name is not held, the root signed it and it is within its validity; for a held name it reports success and changes nothing |
| TrustStore.IntermediateAccepted | daemon/ca/root.go:374-406 | a certificate from SignIntermediateCSR is kept if and only if its name is not held and it is within its validity |
| TrustStore.NodeAccepted | daemon/ca/verify.go:171-203 | a node certificate is accepted if and only if it is within its validity, when its issuer is held under a unique name |
| TrustStore.ChainAccepted | daemon/ca/verify.go:143-203 | root to intermediate to node: issued, added, issued, accepted |
| TrustStore.LocalIntermediateServes | daemon/ca/verify.go:54-63 | what a bootstrap node's own intermediate issues is accepted by the store it loads, exactly during its validity |
| Enrollment.Issuer.BurnEnrollmentToken | daemon/ca/enrollment.go:99-108 | adds the token to what the file held |
| Enrollment.Issuer.SignComputeNodeCSR | daemon/ca/intermediate.go:153-205 | checks, burns, issues, in this order; what is returned and what the file holds afterwards |
| Enrollment.IssuedExactly | daemon/ca/intermediate.go:153-205 | a certificate is issued if and only if there are a key and a root, the token is signed under the root over all its fields, unexpired and unused, and the request is signed with its own key; then the token is burned, and otherwise nothing changes |
| Enrollment.TokenGenerated | daemon/ca/enrollment.go:39-61 | what a new token says and what its signature covers |
| Enrollment.UsedGrows | daemon/ca/enrollment.go:99-120 | the used set only grows over a sequence of calls |
| Enrollment.SingleUse | daemon/ca/intermediate.go:153-176 | a token is new before its certificate, burned with it, and refused in every later call |
| Enrollment.RefusalBurnsNothing | daemon/ca/intermediate.go:153-171 | a refused call leaves the used tokens as they were |
| Enrollment.TokenAccepted | daemon/ca/enrollment.go:39-96 | a token from GenerateEnrollmentToken is accepted if and only if it has neither expired nor been used |
| Enrollment.IssuedIsAccepted | daemon/ca/intermediate.go:178-205 | what SignComputeNodeCSR issues, VerifyCert accepts exactly during its validity |
| Enrollment.AcceptedAgain | daemon/ca/enrollment.go:75-126 | a call that succeeded succeeds again over whatever the file has become if and only if the token is not in it |
| Enrollment.UnreadableFileForgets | daemon/ca/enrollment.go:98-120 | a certificate issued over a missing or unreadable file leaves only its own token used: every other one passes again |
| ClockCheck.Sink | daemon/ca/clockcheck.go:173-175 | the inner loop extends the sorted part by one and permutes |
| ClockCheck.InsertionSort | daemon/ca/clockcheck.go:171-176 | a sorted permutation |
| ClockCheck.QueryNtpMedian | daemon/ca/clockcheck.go:162-178 | none without an answer, otherwise the upper median of the answers |
| ClockCheck.ResponsesAppend | daemon/ca/clockcheck.go:162-167 | the answers are those of the servers that answered, in order |
| ClockCheck.MedianTolerates | daemon/ca/clockcheck.go:171-177 | with fewer than half of the answers wrong, the median is within the error of the others |
| ClockCheck.NtpDecision | daemon/ca/clockcheck.go:92-105 | then the check does not block up to 5 minutes minus that error and blocks beyond 5 minutes plus that error |
| ClockCheck.JudgeExact | daemon/ca/clockcheck.go:93-97 | the check blocks if and only if the drift is over 5 minutes and not at or below the least Duration |
| ClockCheck.FarFuturePasses | daemon/ca/clockcheck.go:107-122 | a bootstrap answer is verified with the least Duration as drift if and only if it is 2^63 ns ahead or more |
| ClockCheck.CheckMeaning | daemon/ca/clockcheck.go:53-131 | verified if and only if steps A and B pass and the deciding reference is within 5 minutes, or out of range ahead; neither verified nor blocking if and only if they pass and no server answered |
| ClockCheck.CheckSource | daemon/ca/clockcheck.go:56-130 | which step decides |
| ClockCheck.CheckSystemClock | daemon/ca/clockcheck.go:53-131 | the ladder with its early returns; the time is saved exactly when verified |
| Base64Url.RoundTrip | scripts/vernex-auth-relay/relay.py:73-100 | base64url (section 5 of RFC 4648) with its padding stripped and two pads appended decodes to the bytes, for every length |
| Base64Url.B64UrlExactly | scripts/vernex-auth-relay/relay.py:73-74 | the encoding has a letter for each six bits, without padding, and is the same number in base 64 as the bytes in base 256, but for the zero bits that fill the last letter |
| Base64Url.LetterExactly | scripts/vernex-auth-relay/relay.py:73-74 | the alphabet of section 5 of RFC 4648 |
| Base64Url.ValueExactly | scripts/vernex-auth-relay/relay.py:100 | the decoder reads this alphabet, and + and / as 62 and 63 |
| Base64Url.ForeignSkipped | scripts/vernex-auth-relay/relay.py:100 | the decoder skips every other character |
| Base64Url.UnpaddedRefused | scripts/vernex-auth-relay/relay.py:100 | without pads, only whole groups of four letters are read |
| OAuthState.IntRoundTrip | scripts/vernex-auth-relay/relay.py:88-105 | int reads back what str printed, which holds no bar |
| OAuthState.RoundTripState | scripts/vernex-auth-relay/relay.py:87-107 | every URL is read back while at most 600 s have passed, and refused as expired afterwards |
| OAuthState.StrExactly | scripts/vernex-auth-relay/relay.py:88 | decimal notation, digit by digit |
| OAuthState.MadeOf | scripts/vernex-auth-relay/relay.py:87-91 | the state is the encoded text of the seconds, a bar and the URL, a dot, and the first 24 digits of the HMAC of that text |
| OAuthState.OnlySignedIsRead | scripts/vernex-auth-relay/relay.py:94-107 | whatever is read carries the first 24 digits of the HMAC of the text it encodes, which has that URL after a time at most 600 s ago |
| OAuthState.SignedIsRead | scripts/vernex-auth-relay/relay.py:94-107 | and everything so signed is read, or refused as expired after 600 s |
| Inventory.Record.EquipItem | dashboard/app.py:1945-1971 | when it is refused, and the bag and slots afterwards; keeps the invariant and the collection |
| Inventory.Record.UnequipSlot | dashboard/app.py:1974-1996 | when it is refused, and the bag and slots afterwards; keeps the invariant and the collection |
| Inventory.Record.DropItem | dashboard/app.py:1999-2009 | the bag without the item; keeps the invariant, and the collection but for that item |
| Inventory.Record.AddItem | dashboard/app.py:2012-2029 | refused exactly without an item or when the bag is full; otherwise keeps the invariant and adds the item to the collection |
| Inventory.RefusedExactly | dashboard/app.py:1957-2025 | when each request is refused, and with which error |
| Inventory.EquippedExactly | dashboard/app.py:1961-1969 | the item leaves its place for the slot with its flag set; what the slot held goes to the end of the bag with its flag cleared; the others keep their order |
| Inventory.MovedExactly | dashboard/app.py:1990-2027 | the bag and the slots after unequipping, dropping and adding |
| Inventory.Conservation | dashboard/app.py:1945-2029 | each request keeps ids unique across bag and slots, the capacity, and items in their own slots, and changes the collection by the item added or dropped only |
| Inventory.AddKeepsExactly | dashboard/app.py:2012-2029 | adding any item keeps the invariant if and only if the bag is full or the id is new |
| Inventory.EveryRunConserves | dashboard/app.py:1945-2029 | every run that adds items with new ids keeps the invariant, and leaves the collection with exactly what was added in turn and without what was dropped |
| Inventory.EquipThenUnequip | dashboard/app.py:1945-1996 | unequipping undoes equipping into an empty slot, but for the place in the bag |
| Combat.Record.CombatStart | dashboard/app.py:2770-2794 | the enemy and the defaults set; keeps the invariant |
| Combat.Record.CombatAttack | dashboard/app.py:2797-2896 | when it is accepted, and the whole exchange of blows; keeps the invariant |
| Combat.Record.CombatFlee | dashboard/app.py:2899-2922 | escape or a blow; keeps the invariant |
| Combat.GeneratedExactly | dashboard/app.py:1786-1804 | the numbers of an enemy by template, level and rank |
| Combat.StartedExactly | dashboard/app.py:2778-2788 | health is set only where there is none, at twice the stamina and at least 10 |
| Combat.BlowExactly | dashboard/app.py:2815-2821 | the loss of a blow: attack and quality less the resistance that applies, at least 1 and not below 0 |
| Combat.AnswerExactly | dashboard/app.py:2841-2872 | the loss of the player, with what each special ability and the cooldown change |
| Combat.VictoryExactly | dashboard/app.py:2834-2840 | the fight ends and is counted, for a boss as such |
| Combat.FledExactly | dashboard/app.py:2908-2920 | escape, or half the enemy's strength |
| Combat.AttackHurts | dashboard/app.py:2815-2844 | an accepted attack strictly lowers the enemy's health, and counts a victory exactly at zero |
| Combat.EveryRunKeepsInv | dashboard/app.py:2770-2922 | health stays within its bounds, an undefeated enemy is alive, the special counter stays below its cooldown, and bosses defeated are at most enemies defeated |
| Combat.FightIsBounded | dashboard/app.py:2797-2922 | a fight accepts at most as many attacks as the enemy has health |
| PromptWindow.WindowMessages | dashboard/app.py:1193-1227 | the loop over the leading system messages, and the window |
| PromptWindow.WindowShape | dashboard/app.py:1193-1227 | the window leaves out at most one stretch of messages, and only when more than 2·keep_turns+4 follow the leading system messages; it keeps, in order, these and the two after them, the last 2·keep_turns before the tail, and the tail; at most 2·keep_turns+4 follow the system messages |
| PromptWindow.WindowIdempotent | dashboard/app.py:1193-1227 | windowing twice is windowing once |
| PromptWindow.WindowBound | dashboard/app.py:1193-1227 | at most 2·keep_turns+4 messages follow the leading system messages if and only if keep_turns is at least one or there were at most four |
| PromptWindow.ZeroTurnsKeepsEverything | dashboard/app.py:1222-1225 | keeping no turns keeps them all |
| ResponseLimit.EnforceResponseLength | dashboard/app.py:1379-1409 | the answer, shortened or not, as specified |
| ResponseLimit.FindHud | dashboard/app.py:1391-1396 | the last bracketed line |
| ResponseLimit.ShortenedExactly | dashboard/app.py:1381-1401 | an answer changes if and only if it is unstructured with more than four lines that are not blank |
| ResponseLimit.ShortenedTo | dashboard/app.py:1391-1409 | then it is the excerpt of its first three lines, in order and without the last bracketed one, with the mark; and that bracketed line |
| ResponseLimit.StructuredExactly | dashboard/app.py:1383-1385 | structured means three backquotes or a line that starts with a bar |
| ResponseLimit.LinesTogether | dashboard/app.py:1386 | splitting into lines loses nothing |
| ResponseLimit.NonBlankAppend | dashboard/app.py:1387 | the lines kept are those that are not blank, in order |
| ResponseLimit.HudExactly | dashboard/app.py:1394 | a bracketed line has only spaces before the bracket |
| ResponseLimit.SpaceExactly | dashboard/app.py:1381-1394 | the characters that strip removes |
| ResponseLimit.AtMostFourLines | dashboard/app.py:1379-1409 | unstructured answers end up with at most four lines that are not blank |
| ResponseLimit.EnforcedIdempotent | dashboard/app.py:1379-1409 | limiting twice is limiting once |
| ResponseLimit.ThreeLinesBesideTheHud | dashboard/app.py:1380-1401 | the promise of three lines besides the bracketed one holds except for four lines with none bracketed |
| ResponseLimit.ExcerptEndsASentence | dashboard/app.py:1403-1406 | an excerpt keeps a prefix of at least three tenths, and if cut it ends with the last sentence |
| ResponseLimit.ExcerptExactly | dashboard/app.py:1404-1406 | it is cut there if and only if the last sentence ends after three tenths of the text |

## Left out

- Foreign code: ML-DSA, base64 text of keys and signatures, UTF-8, HMAC and the calendar are parameters with stated laws (`Certificates.Correct`, `OAuthState.Correct`); a field that does not decode counts as a bad key or signature. The loops of `container/heap` are written out from its documentation; `heap.Init` on an empty queue does nothing.
- JSON: writing and reading back is the identity. A file is missing, unreadable or a value; writes succeed. A used_tokens.json holding `null`, on which burning a token would panic, is not part of this model.
- Concurrency of the certificate files: `/enroll` takes no lock, so calls are serialised here. In `CommonsReview` the steps of all parties interleave.
- Clocks are parameters, and one reading stands for readings taken within one check.
- Bytes are ints from 0 to 255 and exclusive or is defined on naturals digit by digit; certificates, requests and queue entries are values, so setting `Signature` or `seq` is an update and sharing of a `*TokenRequest` is not modelled. The backing array that `bucket[:0]` shares is a sequence updated by index in `RateLimiter.RateLimiter.Compact`; the array beyond the length of a bucket is not modelled.
- Scheduler.EveryRunIsOrderly: the results over runs stop before the counter wraps; `Scheduler.NewcomerIsLast` says what happens then.
- CommonsReview.EveryReviewIsAccountedFor: review ids are assumed to be new; they are random in the code.
- Inventory.EveryRunConserves: added items are assumed to have new ids; the route does not check it, and `Inventory.AddKeepsExactly` says what that costs.
- ClockCheck.NtpDecision: stated for a true time less than 2^63 ns ahead, the limit that `ClockCheck.FarFuturePasses` shows to be needed.
- Combat.EveryRunKeepsInv: the enemy tables are not transcribed; their rows are inputs with positive health and a cooldown of at least one, and the level is not negative. Dice and the stats of `_eff_stat` are inputs.
- Combat: item wear, loot, the turns a special ability takes away, its effect on stats, and the texts sent back.
- OAuthState.Int: reads a sign and ASCII digits; the spaces, underscores and other digits that Python's int also reads are left out, and no printed number has any.
- Null slots, missing fields of items, and the save-file routes that overwrite a whole record.
- GenerateRootCA and LoadRootCA, the trusted node names, HTTP, TLS, UDP and NTP packets, the signature on /time, mDNS, inference, the assessment of a prompt, the response channel, costs and contribution scores, queue counts, and the choice of the rate limit key.
