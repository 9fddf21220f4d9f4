# Verified core of the PlugChain Go SDK

This project models the parts of the SDK that do real computation, and proves what they guarantee:

- **Sending batches.** `SendBatch` cuts messages into transactions, retries, halves the batch size and takes
  sequence numbers from a cache that adds one speculatively. `Sender` is the machine of one call, one step a pass
  through the loop, with everything the network, the node and the cache can do as an event; its theorems are about
  every sequence of events. `Client` is the loop itself, on a client object with its cache, proved to compute exactly
  the machine's run. `Locker` is the sharded lock and `Concurrent` is any number of calls at once: its theorems are
  about every interleaving, and get there by showing that each call runs as if it were alone.
- **Decimals.** `Dec` is an integer scaled by 10^18 whose products and quotients round. `Decimals`, `DecPower`,
  `PowerBounds`, `DecRoot`, `SqrtRange`, `RootResidual` and `DecText` give exact rounding laws, error bounds for powers
  and roots, where a hundred Newton steps are enough and where they are not, and the round trip through text. `Ints` is
  the 255-bit integer beneath.
- **Coin sets.** Sorted lists of coins mean a function from denoms to amounts (`Coins.Total`). `Coins`, `CoinSets`,
  `CoinRules`, `Truncation`, `CoinText`, `CoinTypes` and `Bank` prove merging, subtraction, intersection,
  construction, truncation, printing, unit conversion and the multi-send balance check against that meaning. The key is
  `Coins.CanonicalUnique`: a strictly sorted zero-free list is determined by its amounts.
- **Swap prices.** `Swap` proves the constant-product laws over every run of trades.
- **Byte formats.** `Varint`, `Wire` and `Multisig` are the backward-writing protobuf marshaller and its decoder,
  `WireGrammar` is what a field is on the wire, apart from any decoder, and `MessageGrammar` proves which bytes the
  decoders accept and as what in terms of such fields. `BitArrays` is the compact bit array with its own encoding, and
  `CompactForms` says which bytes that encoding's decoder accepts.

A Go panic is an outcome of its own (`None`, `Panicked`, `DenomPanic`, ...), not a precondition. Code that updates
an object, a slice or a buffer is a class or a method on an array, proved against a function of the old contents.

Where a property one would expect is false of the code, the code is kept, an input that breaks it is given, and the
exact condition is proved:

| expected | what holds | an input that breaks it |
|---|---|---|
| a nil error of `SendBatch` means that everything was sent | if and only if neither validating the messages nor a pass panicked, a pass while building or by halving a batch of one (`Sender.NilErrorMeansSentIff`); with a size limit, if and only if validating does not panic and each message fits on its own (`Sender.SizeLimitIff`) | `Sender.NilErrorNothingSent`, `Client.HiddenMultiSendPanic` |
| what the chain executed is what was acknowledged | if and only if no reply was lost (`Sender.DeliveredIff`) | `Sender.LostReplyRepeats` |
| a call leaves a healthy cache entry healthy | if and only if no pass failed or panicked while signing (`Sender.HealthyAfterIff`) | `Sender.AbandonedNumber` |
| the lock keeps two calls for one account apart | if and only if their names hash to one shard (`Concurrent.OverlapFreeIff`) | `Concurrent.TwoNamesOverlap` |
| `QuoRoundUp` is an upper bound | `Decimals.DivRoundUpIsUpperBoundIff` | `Decimals.DivRoundUpUndershoots` |
| `Decimals.RoundUpReturnsIff` | types/dec.go:313-325 | exactly when a quotient rounded up returns, for either sign, in terms of the exact quotient |
| `Decimals.NegativeRoundUpExact` | types/dec.go:313-325 | a quotient that is not positive is rounded up to its exact ceiling |
| `ApproxSqrt` without an error is accurate | below 2^188 always (`SqrtRange.SqrtAccurate`), from 2^189 on never (`SqrtRange.HugeSqrtNotConverged`); its loop stops by itself below 2^184 (`SqrtRange.SqrtConverges`) | every d from 2^189 on |
| the Dec parser accepts only the documented form | what it accepts is `DecText.ParseAcceptsIff`; documented if and only if no sign follows the optional minus (`DecText.DocumentedIff`) | `DecText.UndocumentedAccepted` |
| an unbalanced multi-send is rejected | it panics if and only if the totals before the first invalid entry overflow, or everything is valid and the totals part in a denom (`Bank.PanicIff`) | `Bank.UnbalancedCanPanic` |
| three coin sets may be grouped either way | if and only if the three together in range imply that the partial sums of both groupings or of neither are (`CoinSets.SafeAddAssociatesIff`); so always for non-negative sets (`CoinSets.SafeAddAssociates`) | `CoinSets.GroupingCanPanic` |
| unit conversion is lossless | from the smallest unit, `CoinTypes.ConversionLosslessIff`; from an unknown unit always (`CoinTypes.UnknownUnitComesBack`), and a coin of the main unit is lost (`CoinTypes.MainUnitIsLost`) | `CoinTypes.ConversionCanLose`, `CoinTypes.ConversionCanPanic` |
| a quote is the least sufficient input | `Swap.OutputPriceMinimalIff` | `Swap.QuoteCanBeOneTooHigh` |
| a message survives the wire | if and only if its unrecognized bytes are complete records of other fields (`Multisig.RoundTripIff`) | `Multisig.HiddenSignature` |
| `MessageGrammar.DecodeIff` | crypto/types/multisig.pb.go:282-364 | arbitrary bytes are accepted exactly when they are well-formed legal fields; the signatures are the contents of the fields 1 and the unrecognized bytes all other fields, each in order |
| decoding a bit array never panics | `BitArrays.CompactUnmarshalPanicsIff` | `BitArrays.CompactUnmarshalCanPanic` |
| a decoded bit array has as many bits as its prefix says | `BitArrays.DecodedCountIff` | `BitArrays.DecodedCountCanDiffer` |
| an array with bits is never encoded as the marker of an absent one | unless it has 110 bits and the bytes "ull" (`BitArrays.NullIff`) | `BitArrays.NullCollision` |
| `CompactForms.MarshalAnnounces` | crypto/types/compact_bit_array.go:206-220 | for every remainder, an array with bits is encoded as a varint of exactly its number of bits followed by its bytes |
| a bit array survives its compact encoding | if and only if its remainder is below eight and it has a byte (`BitArrays.CompactRoundTripIff`) | `BitArrays.NullCollision` |
| indexing a bit array never panics | if and only if the stored remainder is at most eight (`BitArrays.NoIndexPanicsIff`) | `BitArrays.DecodedArrayCanPanic` |

`dafny verify dfyconfig.toml` checks the whole project.

## Model

| member | source | states |
|---|---|---|
| `Batches.SubArray` | utils/commom.go:24-45 | the loop with its computed bounds yields exactly the consecutive pieces of the list, and panics exactly when a non-empty list is cut into pieces of zero |
| `Batches.SegmentsCover` | utils/commom.go:24-45 | the pieces concatenated are the list: nothing lost, repeated or reordered, none empty or too long |
| `Batches.SegmentsFrom` | utils/commom.go:24-45 | the pieces from the i-th on are the pieces of what the first i leave over, which is what makes cutting again after i pieces safe |
| `Batches.SegmentCount` | utils/commom.go:24-45 | there are as many pieces as the length divided by the size, rounded up |
| `Sender.SentIsPrefix` | modules/base_client.go:184-227 | in every state of every run, across retries and resizes, the acknowledged messages are a prefix of the original list in order and without repeats, and are all of a non-empty list exactly when the call has returned normally |
| `Sender.AttemptCarries` | modules/base_client.go:184-209 | in every state of every run the batch size is 100 halved once per transaction that was too large, and a pass that broadcasts carries exactly the next that many messages of the original list, or all that are left |
| `Sender.SentIsAcknowledged` | modules/base_client.go:184-227 | the results are the pieces of the accepted broadcasts, in order, and no others |
| `Sender.SentInHundreds` | modules/base_client.go:184-227 | a call that returns normally without a too large transaction, whatever was retried, has sent its messages a hundred at a time, with one result per begun hundred |
| `Sender.RunEnds` | modules/base_client.go:184-227 | whatever happens, a call for n messages is over after n + 10 passes; in every state at most three broadcasts have failed, and at most one without caching |
| `Sender.StepHeals` | modules/account.go:28-44 | after any pass that goes on, from any cache content, a cached number is the one the chain used last |
| `Sender.SelfHealing` | modules/account.go:28-44 | a run meets at most one sequence rejection, it can only be its first broadcast, and every later transaction carries exactly the chain's next number, with cache entries vanishing at any pass |
| `Sender.DoneIff` | modules/base_client.go:208-222 | when transactions can be built, a call that is over has sent everything if and only if fewer than three broadcasts failed |
| `Sender.WarmStart` | modules/account.go:28-44 | from a healthy or absent cache entry no broadcast is ever off sequence, and a call that returns normally leaves the entry healthy for the next call |
| `Sender.HealthyAfterIff` | modules/account.go:28-44 | from a healthy entry, in every state of every run, the cached number is the one the chain used last exactly when no pass failed or panicked while signing |
| `Sender.AbandonedNumber` | modules/base_client.go:372-394 | one failure after the number was taken leaves a number in the cache that was never broadcast |
| `Sender.FirstRejectedIff` | modules/account.go:28-44 | the first broadcast to reach the chain is rejected for its number exactly when there was a live entry that was not the number the chain used last |
| `Sender.BudgetSuffices` | modules/base_client.go:208-222 | when transactions can be built and at most one broadcast fails for another reason than its number, the call returns normally with everything sent, from any cache content |
| `Sender.DeliveredIff` | modules/base_client.go:208-223 | the chain executed one transaction per acknowledgement and one more per lost reply; it executed exactly the acknowledged pieces if and only if no reply was lost |
| `Sender.LostReplyRepeats` | modules/base_client.go:208-223 | a lost reply makes one message execute twice and be acknowledged once |
| `Sender.ValidatedIff` | modules/base_client.go:173-177 | validation refuses, or panics, exactly when the first message that does not pass does so |
| `Sender.NilErrorMeansSentIff` | modules/base_client.go:169-177 | for every configuration and all events, a call ends in a panic exactly when validating its messages panics, or some pass panics while building or has a batch of one that is too large; once it is over, a nil error means that everything was sent exactly when neither happened |
| `Sender.ErrorIff` | modules/base_client.go:164-222 | in every state of every run, the call has ended with an error exactly when there are no messages, validating refused one, a pass could not build its transaction, or three broadcasts failed, one without caching; after three failures no number is left in the cache |
| `Sender.NilErrorNothingSent` | modules/base_client.go:391-394 | a fee that cannot be converted ends the call with a nil error and nothing sent |
| `Sender.SizeLimitIff` | modules/base_client.go:197-206 | with a size limit and any fate of the broadcasts, a call that validates without a panic panics only if some message is too large alone, and returns normally only if none is; over without an error, everything was sent if and only if validating did not panic and each message fits alone |
| `Sender.SmoothNeverFails` | modules/base_client.go:208-222 | when transactions can be built and broadcasts are accepted, a call never ends with an error, from any cache content |
| `Sender.FixedNumber` | modules/base_client.go:372-384 | with a number fixed by the caller every broadcast of every run carries it, and the cache entry is left alone until a failure or a resize removes it |
| `Client.AccountCache.QueryAndRefreshAccount` | modules/account.go:28-44 | a live cached number is advanced by one with 64-bit wrap-around, a missing one is the chain's; either is kept for the next call when caching is on, and no other address's entry changes |
| `Client.AccountCache.SaveAccount` | modules/account.go:124-135 | the entry of this address is the number, or stays absent without caching; no other entry changes |
| `Client.AccountCache.RemoveCache` | modules/account.go:109-111 | the entry of this address is gone, the result says whether there was one, and no other entry changes |
| `Client.BaseClient.BuildTx` | modules/base_client.go:354-384 | a fixed number is used as it is and leaves the cache alone; otherwise the number comes from the cache; a query that fails or panics takes no number, signing that fails or panics has taken one |
| `Client.BaseClient.TryOnce` | modules/base_client.go:192-222 | one pass changes cache, chain and broadcast log as one step of the machine, and its outcome is what the step does to the call's variables |
| `Client.BaseClient.SendPiece` | modules/base_client.go:191-223 | the retry loop ends where as many machine steps end, with the piece sent, too large, or the call over |
| `Client.BaseClient.SendPieces` | modules/base_client.go:184-227 | the loop over the pieces, re-cut at half the size whenever one is too large, ends in a state of the machine's run that is over, with the run's results; `Sender.AttemptCarries` says what each piece holds |
| `Client.Node.BroadcastTx` | modules/base_client.go:208-209 | the chain accepts exactly its next number of that address: accepted, burned and lost broadcasts use it up, accepted and lost ones execute, and no other address is touched |
| `Client.BaseClient.SendBatch` | modules/base_client.go:164-228 | on a client that may have sent before, for every way messages validate and every list of events: the results, the way the call ends, the broadcasts added, the chain's view of the address and its cache entry are those of the machine's run, and nothing of any other address changes |
| `Client.ValidateBasics` | modules/base_client.go:173-177 | the loop stops at the first message that does not pass, with its outcome |
| `Client.HiddenMultiSendPanic` | modules/bank/types.go:85-113 | a multi-send whose validation panics ends the call with a nil error, nothing sent and no pass made |
| `Client.EveryRunIsFixed` | modules/base_client.go:164-228 | events that depend on what the call did so far add no runs, so the loop's contract covers all of the machine's |
| `Locker.IndexFor` | modules/base_client.go:427-435 | the loop computes the 32-bit FNV-1 hash of the name |
| `Locker.ReferenceValues` | modules/base_client.go:427-435 | the published FNV-1 values of the empty name, "foo" and "foobar" |
| `Locker.OneByteApart` | modules/base_client.go:427-435 | names that differ in exactly one byte, anywhere, have different hashes |
| `Locker.CommonEnding` | modules/base_client.go:427-435 | behind a common ending two names have equal hashes exactly when they had them before it: no round loses anything |
| `Locker.Shards.constructor` | modules/base_client.go:333-342 | as many shards as asked for, all free |
| `Locker.Shards.GetShard` | modules/base_client.go:422-425 | the shard is in range and a function of the name alone, so equal names share a shard; without shards it panics |
| `Locker.Shards.Lock` | modules/base_client.go:412-415 | the caller proceeds exactly when the name's shard is free, and blocks otherwise; then that shard and no other has its token |
| `Locker.Shards.Unlock` | modules/base_client.go:417-420 | the caller proceeds exactly when the name's shard is taken, and blocks otherwise; then the shard is free and no other shard changes |
| `Locker.TwoNamesApart` | modules/base_client.go:422-435 | two concrete names with different shards out of sixteen |
| `Concurrent.LockSafety` | modules/base_client.go:412-435 | over every interleaving of any number of calls and shards, a shard holds one token exactly when one caller owns it, none otherwise, and two calls under one name never overlap |
| `Concurrent.OverlapFreeIff` | modules/base_client.go:181-182 | no interleaving lets two calls work on one account at once, if and only if every two calls for one account hash their names to one shard |
| `Concurrent.TwoNamesOverlap` | modules/base_client.go:181-182 | two names of one account in different shards, and both calls at work at once |
| `Concurrent.EachRunsAlone` | modules/base_client.go:181-227 | serializability: in every state of every interleaving each call is where it would be had it run alone from the account state it found, with the events of its own passes |
| `Concurrent.EveryCall` | modules/base_client.go:181-227 | for every call of every interleaving: acknowledged messages are a prefix, all of them on a normal return, at most one sequence rejection, and the chain's next number from the second broadcast on |
| `Concurrent.EveryCallDelivers` | modules/base_client.go:208-222 | the budget of three suffices for every call of every interleaving, whatever the other calls do |
| `Concurrent.NoDeadlock` | modules/base_client.go:412-420 | while some call is not over, some call can move |
| `Concurrent.EveryRunEnds` | modules/base_client.go:181-227 | n calls for m messages make at most m + 12 n moves in any interleaving, and where none is possible any more every call is over |
| `Decimals.ChopPrecisionAndRound` | types/dec.go:491-521 | the big integer becomes its nearest multiple's quotient, ties to even, for either sign |
| `Decimals.ChopPrecisionAndRoundUp` | types/dec.go:523-543 | the big integer becomes an integer not below the exact quotient and less than one above it, for either sign |
| `Decimals.CeilDivIff` | types/dec.go:523-543 | there is one such integer, and it is the least that is not below the exact quotient |
| `Decimals.ChopPrecisionAndTruncate` | types/dec.go:567-569 | what is cut off is smaller than one unit and signed like the old value, for either sign |
| `Decimals.TruncationIff` | types/dec.go:567-569 | that remainder fixes the result: it is the quotient of Go's truncating division, and no other integer has it |
| `Decimals.NearestEvenIff` | types/dec.go:491-521 | the rounding used is the one integer within half a unit that is even when exactly half a unit away |
| `Decimals.MulDec` | types/dec.go:241-249 | the in-place computation is the rounded product with its 315-bit check |
| `Decimals.MulIsNearest` | types/dec.go:241-249 | a product returns r exactly when r is the nearest-even rounding of the exact product and fits, for both signs |
| `Decimals.QuoDec` | types/dec.go:283-295 | scaling twice, truncating and rounding is the quotient function, with its panics |
| `Decimals.DivError` | types/dec.go:283-295 | despite rounding twice a quotient is within 1/2 + 1/10^18 units of the exact one |
| `Decimals.DivReturnsIff` | types/dec.go:283-295 | a quotient returns exactly when the divisor is not zero and the exact quotient is more than half a unit below 2^315 units in magnitude |
| `Decimals.QuoTruncateDec` | types/dec.go:298-310 | the in-place computation is the truncating quotient function, with its panics |
| `Decimals.DivTruncateExact` | types/dec.go:298-310 | truncating twice is truncating the exact quotient toward zero once, for all signs |
| `Decimals.TruncateReturnsIff` | types/dec.go:298-310 | a truncated quotient returns exactly when the divisor is not zero and the exact quotient is below 2^315 units in magnitude |
| `Decimals.QuoRoundUpDec` | types/dec.go:313-325 | the in-place computation is the rounding-up quotient function, with its panics |
| `Decimals.DivRoundingOrder` | types/dec.go:283-325 | for a non-negative dividend and a positive divisor truncated <= rounded <= rounded up <= truncated + 1 unit |
| `Decimals.DivRoundUpIsUpperBoundIff` | types/dec.go:313-325 | for every divisor, rounding up reaches the exact quotient unless the quotient is positive and the remainder of the once-scaled dividend is not zero and too small to survive the second scaling |
| `Decimals.DivRoundUpUndershoots` | types/dec.go:318-319 | a concrete quotient that is rounded up to zero although it is positive |
| `Decimals.Ceil` | types/dec.go:597-616 | the result is a whole number, not below the argument and less than one above it |
| `DecPower.PowerDec` | types/dec.go:388-405 | the square-and-multiply loop computes the recursive power with every product rounded |
| `DecPower.PowerErrorBound` | types/dec.go:388-405 | for a Dec in [0,1] and n >= 1 the power returns, stays in [0,1] and is within (n-1)/2 units of the exact one |
| `DecPower.PowerOfWhole` | types/dec.go:388-405 | on whole numbers the power is exact for every exponent, and panics exactly when the true power does not fit |
| `PowerBounds.PowerOfNegative` | types/dec.go:388-405 | a power of -d is the power of d, with its sign changed for an odd exponent, panics included |
| `PowerBounds.SmallPowerError` | types/dec.go:388-405 | for a Dec in [-1,1] and n >= 1 the power returns, stays there and is within (n-1)/2 units of the exact one |
| `PowerBounds.LargePowerError` | types/dec.go:388-405 | for \|d\| >= 1 and n >= 1 a returned power is within (\|d\|+u)^n - \|d\|^n of the exact one, u being one unit, and it returns whenever (\|d\|+u)^n fits |
| `PowerBounds.PowerOfFraction` | types/dec.go:388-405 | 1.5 to the power 2 is 2.25 |
| `DecRoot.IterateDec` | types/dec.go:373-381 | one iteration computes one Newton step on rounded arithmetic, or the error a panic in it becomes |
| `RootResidual.ApproxRootDec` | types/dec.go:345-385 | for either sign and every degree k: a root r that stopped on a small step has \|r^k - d\| within 4 k (max(r,1) + 2u)^(k-1) units, and below one within 3.5 k units; in any case it ends a run of rounded Newton steps from one; it has the sign of the argument; degrees 0 and 1 give one and the argument; and it returns whenever the power of the largest possible guess fits |
| `RootResidual.RootByRunDec` | types/dec.go:361-384 | a returned root of any degree ends a run of rounded Newton steps from one, each within the error of its power and quotient, that goes on while steps are not small and makes a hundred of them if none is |
| `RootResidual.ModerateRootDec` | types/dec.go:361-384 | the root of a non-negative Dec returns, in range, whenever the power of the largest possible guess fits |
| `RootResidual.CubeRootOfEight` | types/dec.go:361-384 | the cube root of 8 is 2, exactly, with a last step of zero |
| `DecRoot.PositiveRootDec` | types/dec.go:361-384 | the shortcuts and the loop compute the root function of a non-negative Dec, and the guess is at least one unit throughout |
| `DecRoot.GuessStaysPositive` | types/dec.go:373-381 | from a guess of at least one unit a step ends at a guess of at least one unit, for every root |
| `SqrtRange.ApproxSqrtDec` | types/dec.go:409-411 | for either sign: below 2^188 it returns and \|r^2 - d*10^18\| <= 6\|r\| + 7, below 2^184 its last step is small, and whenever its last step is small \|r^2 - d*10^18\| <= 2\|r\| + 2; the root has the sign of d |
| `DecRoot.RunCertifies` | types/dec.go:372-384 | a run of rounded Newton steps that stopped on a small one ends within the certificate, whatever the steps before |
| `SqrtRange.SqrtConverges` | types/dec.go:372-384 | below 2^184 the loop always stops on a small step, without an error and within the certificate |
| `SqrtRange.SqrtAccurate` | types/dec.go:372-384 | below 2^188 the returned root satisfies \|r^2 - d*10^18\| <= 6r + 7, also where the iterations ran out |
| `SqrtRange.HugeSqrtNotConverged` | types/dec.go:372-384 | for every in-range d from 2^189 on the iterations run out, no error is returned, and r^2 exceeds d*10^18 by at least 65536 r |
| `SqrtRange.StepNears` | types/dec.go:373-381 | a rounded Newton step never falls below the integer root, and at distance e above it ends at a distance f with 2f - 4 < e^2/g < 2f + 2 |
| `DecText.String` | types/dec.go:426-476 | filling the byte buffer yields the sign, the whole part, a point and exactly 18 digits |
| `DecText.PurelyDecimal` | types/dec.go:447-460 | the buffer for a value below one is "0.", padding zeros and the digits |
| `DecText.InsertPoint` | types/dec.go:461-469 | the buffer for other values is the digits with the point the right number of places from the end |
| `DecText.ParseFormat` | types/dec.go:137-185 | parsing a printed Dec gives it back, for every Dec of either sign |
| `DecText.FormatIff` | types/dec.go:426-476 | a Dec prints as the one text with a minus for negative values only, a numeral without needless zeros, a point and exactly 18 digits that spells it |
| `DecText.ParsePlain` | types/dec.go:153-178 | digits, a point and up to 18 more digits read as the number they spell |
| `DecText.ParseAcceptsIff` | types/dec.go:137-185 | exactly which texts are accepted and as which value: an optional minus, an optional sign, digits, of which there may be none after a sign, and optionally a point and 1 to 18 digits |
| `DecText.DocumentedIff` | types/dec.go:124-136 | a text has the documented form if and only if it is accepted and no sign follows its optional minus |
| `DecText.UndocumentedAccepted` | types/dec.go:137-185 | a doubled minus, a lone sign and a sign before the point are accepted, with their values |
| `Ints.MulRefusesOnlyOverflow` | types/int.go:254-265 | the early bit-length test never refuses a product that the final 255-bit test would accept |
| `Ints.BitLenOfProduct` | types/int.go:254-265 | the product of non-zero integers has at least the bits of both together, less one |
| `Swap.InputPriceReturns` | modules/coinswap/coinswap.go:400-407 | a returned price is the exact floor of the constant-product formula |
| `Swap.InputPriceIff` | modules/coinswap/coinswap.go:400-407 | for every fee from nothing to all, a price is returned exactly when the amount after the fee, its product with the output reserve, the scaled input reserve and the divisor are Ints |
| `Swap.PriceWithFee` | modules/coinswap/coinswap.go:400-407 | 100 into reserves of 10000 at a fee of 0.003 yields 98 |
| `Swap.OutputPriceReturns` | modules/coinswap/coinswap.go:410-415 | for all arguments a returned price is one more than the truncated quotient; for a part of the reserve that is one more than the floor of the exact input, and an order beyond the reserve is quoted one at most |
| `Swap.OutputPriceIff` | modules/coinswap/coinswap.go:410-415 | for a part of the reserve, a price is returned exactly when the scaled product, the divisor and the price itself are Ints |
| `Swap.RunKeepsPool` | modules/coinswap/coinswap.go:400-415 | over any run of sales and purchases in either direction both reserves stay positive and their product never falls |
| `Swap.NoFreeLunch` | modules/coinswap/coinswap.go:400-415 | after any run, if one reserve did not grow the other did not shrink |
| `Swap.SplittingNeverPays` | modules/coinswap/coinswap.go:400-407 | two successive sales never yield more than one sale of their sum |
| `Swap.OutputPriceSuffices` | modules/coinswap/coinswap.go:400-415 | feeding the quoted input, or more, into the input price yields at least the output asked for; two less yields too little |
| `Swap.OutputPriceMinimalIff` | modules/coinswap/coinswap.go:400-415 | one less than the quote is too little if and only if the exact price is not a whole number |
| `Swap.QuoteCanBeOneTooHigh` | modules/coinswap/coinswap.go:400-415 | a concrete pool whose quote is one more than needed |
| `Coins.RemoveZeros` | types/coin.go:152-164 | the slice is compacted in place to its non-zero coins in order, and behind them holds its old last coin; nothing outside it changes, and nothing at all when it holds no zero |
| `Coins.CanonicalUnique` | types/coin.go:383-429 | a strictly sorted zero-free list is determined by its amounts |
| `Coins.NonZeroCanonical` | types/dec_coin.go:557-570 | removing zeros from a sorted list leaves it strictly sorted and zero-free |
| `Coins.NonZeroKeepsTotals` | types/dec_coin.go:557-570 | removing zeros changes no denom's total |
| `CoinSets.SearchIsTotal` | types/dec_coin.go:443-470 | on a sorted list the recursive binary search finds what a full scan finds |
| `CoinSets.MergeHeads` | types/coin.go:383-429 | the two-pointer loop, run to the end of one list, has merged what it passed, and panics exactly when a sum overflows |
| `CoinSets.SafeAddInPlace` | types/dec_coin.go:236-282 | the result is the merge of the old contents; both backing arrays are unchanged when neither held a zero coin |
| `CoinSets.MergeTotals` | types/dec_coin.go:236-282 | merging adds amounts denom by denom, for every pair of lists |
| `CoinSets.MergeCanonical` | types/dec_coin.go:236-282 | merging sorted lists gives a strictly sorted zero-free list |
| `CoinSets.FitsIff` | types/coin.go:383-429 | on sorted lists the merge panics exactly when the sum of some common denom reaches the limit |
| `CoinSets.SafeAddCommutes` | types/dec_coin.go:236-282 | adding two sets does not depend on their order, the overflow panic included |
| `CoinSets.SafeAddAssociatesIff` | types/dec_coin.go:236-282 | for in-range sets of either sign, a grouping returns exactly when its partial sums and the sums of all three are in range, and the two groupings agree, panics included, exactly when the sums of all three in range imply that the partial sums of both or of neither are |
| `CoinSets.GroupingsAgree` | types/dec_coin.go:236-282 | where both groupings of sorted sets return they return the same list |
| `CoinSets.SafeAddAssociates` | types/dec_coin.go:236-282 | non-negative sets may be grouped either way, and both return exactly when no denom's total overflows |
| `CoinSets.GroupingCanPanic` | types/dec_coin.go:236-282 | with amounts of both signs one grouping panics where the other returns |
| `CoinSets.NegativeCoins` | types/dec_coin.go:285-294 | every amount negated, denoms and order kept |
| `CoinSets.IsAnyNegative` | types/dec_coin.go:340-348 | true exactly when some amount is negative |
| `CoinSets.SafeSubFlag` | types/dec_coin.go:308-311 | where it returns, for any two sorted sets, the difference is canonical and denom-wise right, and is flagged negative exactly when some denom has less on the left |
| `CoinSets.SafeSubIff` | types/dec_coin.go:308-311 | for in-range sets a difference is returned exactly when every denom's difference is in range, negative ones included; it is then canonical and denom-wise right, and flagged exactly when some denom has less on the left |
| `CoinSets.NegativeDifference` | types/dec_coin.go:308-311 | one minus two of a denom is minus one, flagged |
| `CoinSets.SafeSubThenAdd` | types/dec_coin.go:297-311 | where subtracting a set returns, adding it back does not panic and returns the original list |
| `CoinSets.IntersectCoins` | types/dec_coin.go:318-328 | the loop computes the minima by lookup and compacts them; a malformed denom panics |
| `CoinSets.IntersectIsMinimum` | types/dec_coin.go:318-328 | the intersection of non-negative sets is canonical and is the minimum for every denom |
| `CoinSets.IntersectTotals` | types/dec_coin.go:318-328 | for amounts of either sign and well-formed denoms the intersection returns, is the minimum for the denoms of the first set, and holds nothing else |
| `CoinSets.IntersectCommutes` | types/dec_coin.go:318-328 | the intersection does not depend on the order of the two sets |
| `CoinRules.IsValidCoins` | types/coin.go:167-200 | the loop decides validity: pattern on the first denom, lower case on the others, strictly increasing neighbours, positive amounts |
| `CoinRules.ValidIsCanonical` | types/coin.go:167-200 | checking neighbours is enough: a valid set is strictly sorted throughout and positive |
| `CoinRules.FindDup` | types/coin.go:308-323 | the first index that repeats its neighbour's denom, or -1 when none does |
| `CoinRules.NewCoinsFrom` | types/coin.go:130-149 | zeros dropped, sorted, duplicates and invalid sets refused; the set that is returned is the front of the caller's array |
| `CoinRules.NewCoinsReturnsIff` | types/coin.go:130-149 | a set is built exactly when, of the coins that are not zero, the denoms are distinct, the amounts positive, the least denom matches the pattern and the others are lower case |
| `CoinRules.SortOrders` | types/coin.go:292-295 | after sorting no coin is before its left neighbour |
| `CoinRules.SortKeeps` | types/coin.go:292-295 | sorting keeps every coin, as often as it occurs |
| `CoinRules.SortIff` | types/coin.go:292-295 | sorting gives a given strictly sorted list exactly when the coins are that list's coins, in whatever order |
| `CoinRules.NewCoinsMeans` | types/coin.go:130-149 | a set that is built is canonical, positive, and has the totals of its arguments |
| `CoinRules.NewCoinsUnique` | types/coin.go:130-149 | arguments with equal totals build the same list, whatever their order and zeros |
| `CoinRules.TruncateDecimal` | types/dec_coin.go:206-218 | the loop accumulates whole coins and change with `safeAdd`, and panics where a constructor or a sum does |
| `CoinRules.TruncateCoinIff` | types/dec_coin.go:113-117 | a coin splits exactly when its denom is well formed, it is not negative and its whole part is an Int; the parts add up to it and the change is below one |
| `CoinRules.TruncateDecimalConserves` | types/dec_coin.go:206-218 | for any list and every denom, whole coins plus change are the original total; both results are canonical, and on sorted input the change is below one |
| `Truncation.TruncateReturnsIff` | types/dec_coin.go:206-218 | truncation returns exactly when every coin splits and no denom's whole parts or changes outgrow their type |
| `Truncation.SortedTruncates` | types/dec_coin.go:206-218 | it never panics on a sorted list of non-negative in-range amounts with well-formed denoms |
| `CoinText.CoinsString` | types/dec_coin.go:190-201 | appending a comma after every coin and cutting the last is joining with commas |
| `CoinText.JoinMeans` | types/dec_coin.go:190-201 | a printed set is the printed amounts with their denoms, separated by single commas |
| `CoinText.MatchIff` | types/dec_coin.go:593-614 | the scan finds an amount and a denom exactly when the coin expression matches, and the match is unique |
| `CoinText.ParseJoin` | types/dec_coin.go:618-644 | parsing a printed set gives it back, for every valid set whose denoms match the pattern |
| `Text.TrimMeans` | types/dec_coin.go:594-594 | trimming cuts only white space, off both ends, and leaves none at either end |
| `Text.SplitIff` | types/dec_coin.go:624-624 | the pieces are the one list of texts without the separator that joins to the text |
| `CoinText.ParseDecCoinIff` | types/dec_coin.go:593-614 | a text is one coin exactly when, trimmed, it is digits, optionally a point and 1 to 18 digits, white space, and a denom of the pattern; the coin has the spelled amount |
| `CoinText.ParseDecCoinsIff` | types/dec_coin.go:618-644 | a text is a set exactly when it is blank, or, trimmed, coins between commas that together are a valid set; their order in the text does not matter |
| `CoinTypes.ConversionLosslessIff` | types/coin_type.go:32-76 | smallest unit to main unit and back returns the same coin, with no overflow, exactly when ten to the scale is an Int and the scale is at most 18 or the amount has nothing below the eighteenth decimal |
| `CoinTypes.MainAmount` | types/coin_type.go:45-51 | an amount of the smallest unit becomes the amount divided by ten to the scale, cut off at 36 decimals and rounded to even at 18 |
| `CoinTypes.MinAmount` | types/coin_type.go:69-75 | an amount of the main unit becomes the amount times ten to the scale, rounded to an Int |
| `CoinTypes.ConversionCanLose` | types/coin_type.go:32-76 | one of a token with 19 decimals does not come back |
| `CoinTypes.ConversionCanPanic` | types/coin_type.go:20-22 | with 77 decimals the conversion of nothing panics |
| `CoinTypes.SmallestUnitIff` | types/coin_type.go:64-67 | a coin already in the smallest unit becomes its whole part, exactly for well-formed denoms and non-negative amounts whose whole part is an Int |
| `CoinTypes.UnknownUnitIff` | types/coin_type.go:56-62 | a coin in an unknown unit keeps its denom and is truncated toward zero, exactly when that is an Int |
| `CoinTypes.UnknownUnitComesBack` | types/coin_type.go:32-76 | a coin in an unknown unit comes back from a conversion there and back, for either sign |
| `CoinTypes.MainUnitIsLost` | types/coin_type.go:41-43 | a coin already in the main unit is replaced by nothing of no denom, and does not come back |
| `Bank.IsEqual` | types/coin.go:269-284 | sorted coin by coin: equal, different, or a panic at the first pair of different denoms |
| `Bank.AddUpEntries` | modules/bank/types.go:194-219 | the accumulating loop: the running total, or the first invalid entry, or an overflow |
| `Bank.ValidateInputsOutputs` | modules/bank/types.go:194-219 | both loops and the comparison give the three-way verdict |
| `Bank.ValidateMultiSend` | modules/bank/types.go:85-113 | a message without inputs or without outputs is rejected; otherwise the balance check decides |
| `Bank.BalanceExact` | modules/bank/types.go:194-219 | the check accepts exactly when every entry is valid, no total overflows, and inputs and outputs have the same total for every denom |
| `Bank.PanicIff` | modules/bank/types.go:194-219 | the check panics exactly when the inputs before the first invalid one overflow, or all inputs are valid and the same holds of the outputs, or everything is valid and the sides have equally many denoms and differ in a denom where they first differ |
| `Bank.UnbalancedCanPanic` | types/coin.go:97-103 | five of one denom in and five of another out panics instead of being rejected |
| `Varint.SovIsLength` | crypto/types/multisig.pb.go:276-278 | the size computed from the bit length is the number of bytes the varint loop writes |
| `WireGrammar.WrittenIff` | crypto/types/multisig.pb.go:231-241 | the bytes written for a number are the one varint of that value without a needless last byte |
| `Varint.EncodeVarint` | crypto/types/multisig.pb.go:231-241 | the varint ends exactly at the offset, every write is in range, and nothing else in the buffer changes |
| `Varint.ReadVarintAt` | crypto/types/multisig.pb.go:289-302 | the reading loop computes the 64-bit value with its length, or truncation, or overflow, without leaving the buffer |
| `Varint.ReadVarintBack` | crypto/types/multisig.pb.go:231-302 | a written varint is read back, consuming exactly its bytes, whatever follows |
| `Wire.SkipAt` | crypto/types/multisig.pb.go:468-545 | the depth-counting loop computes the skipping function; it ends and stays in the buffer on arbitrary bytes |
| `WireGrammar.SkipIff` | crypto/types/multisig.pb.go:468-545 | skipping ends at n inside the buffer if and only if the first n bytes are one well-formed field: a tag with the payload of its wire type, or a group with all that is nested in it |
| `WireGrammar.IntegerIff` | crypto/types/multisig.pb.go:289-302 | reading takes exactly the varint in front, of one to ten bytes, and its value is its seven-bit groups in 64 bits |
| `Wire.WriteDelimited` | crypto/types/multisig.pb.go:184-192 | tag, length and payload end exactly at the index, and nothing else in the buffer changes |
| `Multisig.Size` | crypto/types/multisig.pb.go:242-258 | the number of bytes of the encoding |
| `Multisig.MarshalToSizedBuffer` | crypto/types/multisig.pb.go:175-194 | writing backward fills exactly the end of the buffer with the encoding and touches nothing before it |
| `Multisig.Marshal` | crypto/types/multisig.pb.go:160-168 | the allocated bytes are all filled and are the encoding |
| `MessageGrammar.EncodeMeans` | crypto/types/multisig.pb.go:175-194 | the encoding is the signatures as fields 1, in order, and behind them the unrecognized bytes |
| `Multisig.Unmarshal` | crypto/types/multisig.pb.go:282-364 | on arbitrary bytes the index loop ends, reads only inside the buffer, and computes the record-by-record decoder |
| `Multisig.OtherRecordsIff` | crypto/types/multisig.pb.go:282-364 | the decoder keeps bytes unread exactly when they are complete well-formed fields, one after the other, with legal numbers other than 1 |
| `Multisig.RoundTripIff` | crypto/types/multisig.pb.go:160-364 | a message is given back exactly when its unrecognized bytes are complete well-formed fields with legal numbers other than 1 |
| `Multisig.HiddenSignature` | crypto/types/multisig.pb.go:282-364 | a signature record among the unrecognized bytes comes back as a signature |
| `Multisig.SizeBits` | crypto/types/multisig.pb.go:260-274 | the number of bytes of the bit array's encoding, zero fields left out |
| `Multisig.MarshalBits` | crypto/types/multisig.pb.go:196-229 | the allocated bytes are all filled, backward, and are the encoding |
| `MessageGrammar.EncodeBitsMeans` | crypto/types/multisig.pb.go:196-229 | the encoding is the remainder as a field 1 unless it is zero, and behind it the elements as a field 2 unless there are none |
| `Multisig.UnmarshalBits` | crypto/types/multisig.pb.go:365-467 | on arbitrary bytes the index loop ends, reads only inside the buffer, and computes the record-by-record decoder |
| `Multisig.BitsRoundTrip` | crypto/types/multisig.pb.go:196-467 | every bit-array message is given back |
| `MessageGrammar.DecodeBitsIff` | crypto/types/multisig.pb.go:365-467 | arbitrary bytes are accepted exactly when they are well-formed legal fields; the remainder is the last field 1 in 32 bits, the elements the content of the last field 2, and nothing else has an effect |
| `MessageGrammar.WrongTypeRefused` | crypto/types/multisig.pb.go:394-415 | a field 1 or 2 with another wire type is refused, wherever it stands |
| `MessageGrammar.UnknownFieldIsSkipped` | crypto/types/multisig.pb.go:446-459 | a bit array followed by an unknown field decodes to the bit array |
| `BitArrays.NewCompactBitArray` | crypto/types/compact_bit_array.go:19-27 | nil for zero or fewer bits; otherwise as many bits as asked for, all false, and no stray bits behind them |
| `BitArrays.CompactBitArray.GetIndex` | crypto/types/compact_bit_array.go:42-51 | the bit of the abstract sequence, false beyond the count, and a panic exactly when the index is below the count without a byte |
| `BitArrays.NoIndexPanicsIff` | crypto/types/compact_bit_array.go:30-51 | no natural index panics if and only if the stored remainder is at most eight |
| `BitArrays.DecodedArrayCanPanic` | crypto/types/multisig.pb.go:365-467 | an array decoded from the wire whose first bit panics |
| `BitArrays.CompactBitArray.SetIndex` | crypto/types/compact_bit_array.go:55-71 | exactly one bit of the sequence is assigned; beyond the count nothing changes and false is returned, and an index without a byte panics |
| `BitArrays.CompactBitArray.NumTrueBitsBefore` | crypto/types/compact_bit_array.go:76-85 | the number of true bits in the prefix of the sequence, also for an index beyond its end; it panics exactly when it has to read a bit without a byte |
| `BitArrays.SetBitMeans` | crypto/types/compact_bit_array.go:64-68 | masking one byte changes one bit of the sequence and no other |
| `BitArrays.CleanUnique` | crypto/types/compact_bit_array.go:19-27 | arrays without stray bits are equal as soon as their bits are |
| `BitArrays.NullIff` | crypto/types/compact_bit_array.go:206-220 | for every remainder, the encoding is the "null" marker exactly when the array has no bits, or 110 bits and the bytes "ull" |
| `BitArrays.NullCollision` | crypto/types/compact_bit_array.go:206-220 | remainder 94 and three bytes encode as "null" |
| `BitArrays.CompactRoundTripIff` | crypto/types/compact_bit_array.go:206-241 | decoding an encoded array restores its remainder and every byte if and only if the remainder is below eight and there is a byte |
| `CompactForms.NilIff` | crypto/types/compact_bit_array.go:224-229 | the result is nil without an error exactly for "null" |
| `CompactForms.DecodedIff` | crypto/types/compact_bit_array.go:224-241 | an array is decoded exactly when a 64-bit varint and as many bytes as it announces follow each other and are not "null"; it holds those bytes and the announced count modulo eight |
| `CompactForms.RefusedIff` | crypto/types/compact_bit_array.go:224-241 | bytes are refused exactly when there are fewer than two, the varint is cut off, or its payload has another length than announced |
| `BitArrays.CompactUnmarshalPanicsIff` | crypto/types/compact_bit_array.go:231-232 | decoding panics exactly when the length prefix is over-long: the slice bound is then negative |
| `BitArrays.CompactUnmarshalCanPanic` | crypto/types/compact_bit_array.go:231-232 | ten concrete bytes on which it does |
| `BitArrays.DecodedCountIff` | crypto/types/compact_bit_array.go:231-238 | a decoded array has as many bits as its prefix says, except for the fourteen largest prefixes, which wrap around |
| `BitArrays.DecodedCountCanDiffer` | crypto/types/compact_bit_array.go:231-238 | the largest prefix decodes to an array of -1 bits |
| `BitArrays.MarshalJson` | crypto/types/compact_bit_array.go:149-167 | the loop writes the bits as x and _ between quotes, and panics exactly when the count exceeds the bytes |
| `BitArrays.UnmarshalJson` | crypto/types/compact_bit_array.go:173-202 | "null" empties the array, other text than quoted x and _ is refused and changes nothing, no bits at all dereferences nil, and otherwise the array holds exactly the bits of the text |
| `BitArrays.JsonRoundTrip` | crypto/types/compact_bit_array.go:149-202 | the JSON form of any bits is well formed and reads back as those bits |

## Left out

- gRPC, RPC, websockets, logging, storage, key management, signing and amino: input and output or foreign code. Building, the size check and broadcasting are events of the sender.
- The other generated `.pb.go` files: the same codec shapes again.
- codec/unknownproto, the interface registry and the transaction builder: they rest on reflection and libraries that are not part of this model.
- `BuildTxHash`, `BuildAndSign`, `BuildAndSend` and simulated sends: they take no lock, and some advance the cached number without a broadcast, so the sequence theorems are not about them.
- `ValidateTxSize` always accepts in the source; here it is an arbitrary answer, which makes the resize path part of every theorem.
- The account number beside the sequence number, the coins of an account, gas, fees, memo and mode: no decision of the sender depends on them.
- The capacity and the clock of the cache: an entry may vanish before any pass instead. That a key name and an address share one key space in the cache is not modelled.
- Other senders for the same address outside the client: the chain's number moves only by the calls modelled.
- Fairness of the lock: that some call can always move and that runs are finite is proved; that a given waiting call is not overtaken for as long as others arrive is not claimed.
- Client.BaseClient.SendBatch: the lock is not taken in this method; waiting for it is an action of `Concurrent`, where the interleavings are.
- Locker.Shards.Lock, Locker.Shards.Unlock: a call that would block is reported instead of waiting; waiting is a state of a caller in `Concurrent`. A negative number of shards, which panics, is not modelled.
- `Dec` and `Int` of nil, and nil slices as opposed to empty ones; nil receivers of the bit array.
- SqrtRange.SqrtAccurate, SqrtRange.HugeSqrtNotConverged: nothing is claimed from 2^188 up to 2^189, where the last of the hundred steps decides.
- RootResidual.ApproxRootDec: that the loop stops on a small step is proved for square roots only; for other degrees the error bound is for roots that stopped on one.
- `MulTruncate`, `QuoInt`, `SortableDecBytes` and the JSON, YAML and amino forms of `Dec` and `Int`.
- `Coins.Validate`, `ParseCoins` and `NewDecCoinsFromCoins`; multiplying and dividing whole sets.
- Sorting is specified by insertion; the order of equal denoms, which no accepted set contains, is the model's.
- CoinText.MatchIff: spaces and letter case are those of ASCII and Latin-1; other Unicode is not modelled. The matcher is a scan proved equal to the expression, not a regular-expression engine.
- Padding zeros that the source asks of `fmt` are taken to be zeros; `math/big` is mathematical integers, `binary.Uvarint` reads at most ten bytes.
- Or-ing disjoint bits and shifting are written as addition, multiplication and division in the varint code; bits are bit vectors in the bit array and the hash.
- An order for the whole reserve or more has a price but is not a trade of the pool in `Swap.RunKeepsPool`.
- String forms of the bit array with spaces and line breaks.
