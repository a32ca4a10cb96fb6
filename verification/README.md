# XMR-ETH atomic swaps and wsXMR: a Dafny model

Two parties swap XMR for ether or tokens through a SwapCreator contract, and liquidity providers issue
wsXMR, a token backed by their collateral, through a VaultManager contract. This project models the parts
of that system where money can be lost by an off-by-one, a rounding or an unlucky interleaving, and proves
what every input, every run or every reachable state satisfies. `dafny verify dfyconfig.toml` checks it all.

- **Monero addresses and keys** (`Numerals`, `Base58`, `Keys`): the block-wise base58 coder over a generic
  one, scalar reduction, the secret travelling through an Ethereum log, and additive key shares over any
  commutative group whose base point has order L (section 5.1 of RFC 8032).
- **Decimal money** (`Decimals`, `DecimalArith`, `Coins`, `ExchangeRates`, `XmrAmounts`, `PriceRates`, `AssetAmounts`,
  `DecimalText`):
  sign, coefficient and exponent with 100-digit half-up arithmetic; values are compared as reals. Pure
  functions say what is computed; `DecimalCells` holds decimals by reference and proves which arguments
  the Go code rewrites.
- **Offers** (`Offers`, `OfferRecords`): validation, the hashed text, and the record that owns its decimals.
- **VaultManager** (`VaultModel`, `VaultRuns`, `VaultLedger`, `VaultLiquidation`, `VaultHealth`, `VaultJourneys`,
  `VaultContract`): one function per external
  call, runs over any sequence of calls by anyone at any time and price, and a class that updates storage
  in place and is proved against those functions.
- **SwapCreator** (`SwapCreator`, `SwapJourneys`): the same, for the swap stages.
- **Swap registry and recovery database** (`SwapRegistry`, `RecoveryStore`): lock regions as interleaved
  steps, and one byte-keyed store refining separate tables.

Where sources disagree:

- The VaultManager follows `ethereum/contracts/VaultManager.sol`. The bytecode in `ethereum/vault_manager.go:44`
  is an older build that escrows 150% on a burn and cancels a mint only while it is pending; the contract
  source escrows 120% and also cancels a ready mint 24 hours after its timeout.
- `README.md:99-106` of the repository says a burn lowers the debt when it is finalized and pays 150% when it
  is slashed. The code lowers the debt when the burn is initiated and pays the 120% escrow.
- `coins/coins.go:200-202` calls an error of the ether-to-wei conversion impossible. It occurs exactly when the
  exponent in wei exceeds 100000 (`Coins.ToUnitsOkIff`), even within an accepted offer (`Offers.ConversionCanFail`).
- `coins/exchange_rate.go:91-93` says multiplying never exceeds ether's decimals. That is proved
  (`AssetAmounts.ToAssetOkIff`), but the multiplication before it can still leave the exponent range, even within
  an accepted offer (`Offers.ConversionCanFail`).

Taken as given: hashes (Keccak-256, SHA3-256) and the address checksum are arbitrary functions, with
collision freedom assumed only where a statement says so; a swap is identified by its fields and a request
by an arbitrary number; `mulVerify` is an arbitrary predicate; block time, caller, prices and token
decimals are inputs of each step; token transfers move exactly the stated amount.

## Model

| member | source | states |
|---|---|---|
| `MoneroBase58.PaddedEncodingIsNumeral` | crypto/monero/base58.go:36-70 | for every block and every pattern of leading zero bytes, the generic base58 text fits the block width and, padded with `1`, is the fixed-width base-58 numeral of the block |
| `MoneroBase58.DecodedTailIsNumeral` | crypto/monero/base58.go:74-113 | decoding a block of symbols yields at least the block's bytes, so the slice is in range, and that slice is the numeral modulo 256^w |
| `MoneroBase58.BlockReencode` | crypto/monero/base58.go:74-113 | re-encoding a decoded block gives it back exactly when its number is below 256^w |
| `MoneroBase58.AddrBytesToBase58` | crypto/monero/base58.go:36-70 | the loop over eight full blocks and the last block produces the reference encoding for every 69-byte address |
| `MoneroBase58.AddrBase58ToBytes` | crypto/monero/base58.go:74-113 | total on every string: bad length, integrated address and foreign symbol are errors, otherwise the block-wise reference decoding; no slice is out of range |
| `MoneroBase58.AddressSymbols` | crypto/monero/base58.go:36-70 | every encoded address has exactly 95 symbols of the alphabet |
| `Base58.AlphabetIs` | crypto/monero/base58.go:36-70 | the alphabet is the ASCII digits and letters without 0, I, O and l, in ASCII order |
| `MoneroBase58.AddressBlocks` | crypto/monero/base58.go:36-70 | the i-th 11 symbols are the numeral of the i-th 8 bytes and the last 7 that of the last 5 |
| `MoneroBase58.DecodedAddressBlocks` | crypto/monero/base58.go:74-113 | the i-th 8 bytes are the number of the i-th 11 symbols mod 2^64 and the last 5 that of the last 7 mod 2^40 |
| `MoneroBase58.DecodeErrors` | crypto/monero/base58.go:74-113 | exactly which strings get which error: length 106, other wrong lengths, a foreign symbol |
| `MoneroBase58.AddressRoundTrip` | crypto/monero/base58.go:36-113 | decoding the encoding of any 69 bytes gives the same bytes |
| `MoneroBase58.AddressReencode` | crypto/monero/base58.go:74-113 | for every 95-symbol string, encoding its decoding returns it if and only if every block number fits its bytes |
| `MoneroBase58.TwoSpellings` | crypto/monero/base58.go:74-113 | decoding is not injective: a number with room for 256^w more has a second spelling of the same bytes |
| `Scalars.Reverse` | common/utils.go:23-30 | the new array holds the input back to front |
| `Scalars.ScReduce32IsMod` | crypto/monero/sc_reduce.go:15-33 | for every 32 bytes the result is the only 32-byte encoding of the number mod L, although the big integer drops leading zero bytes |
| `Scalars.ScReduce32Idempotent` | crypto/monero/sc_reduce.go:27-33 | reducing twice is reducing once, and reducing changes nothing exactly on canonical scalars |
| `Scalars.View` | crypto/monero/crypto.go:144-158 | deriving the view key never fails its canonical-scalar check, for any hash and any spend key |
| `Scalars.SecretFromLog` | ethereum/utils.go:214-234 | a log yields a secret if and only if it is a claim or refund event whose third topic is that non-zero secret byte-reversed |
| `Scalars.SecretEndianness` | rpc/swap.go:352 | a secret is a 32-byte big-endian number on chain and a little-endian one in a key |
| `KeyShares.SharesAdd` | crypto/monero/crypto.go:279-292 | the sum of two public keys is the public key of exactly one scalar, the sum of the private ones |
| `KeyShares.ClaimKeypairControls` | protocol/claim_monero.go:33-41 | a key pair has the two parties' summed public keys if and only if it is the claim key pair |
| `KeyShares.ClaimKeypairSums` | protocol/claim_monero.go:33-41 | spend keys add to the spend key and view keys to the view key |
| `KeyShares.RevealedSecretUnlocks` | rpc/swap.go:352 | the secret submitted byte-reversed on chain is read back from the log and completes the key pair of the shared wallet |
| `KeyShares.ScalarGroupIsKeyGroup` | crypto/monero/crypto.go:271-300 | the group laws assumed of the curve are satisfiable: the scalars mod L satisfy them |
| `MoneroAddress.Address.MarshalText` | crypto/monero/address_marshal.go:7-12 | an address is printed, as its base58 form, if and only if it ends in the first four bytes of the hash of the rest and starts with one of the six prefixes |
| `MoneroAddress.Address.UnmarshalText` | crypto/monero/address_marshal.go:18-39 | the address is overwritten only when every check passed, otherwise it is unchanged and the first error is returned; ParseIff says which strings pass |
| `MoneroAddress.ParseIff` | crypto/monero/address.go:111-128 | a string is accepted if and only if it decodes to 69 bytes ending in the first four bytes of the hash of the rest and starting with one of the six prefixes |
| `MoneroAddress.ParseChecksum` | crypto/monero/address.go:111-128 | of all checksums on a 65-byte body exactly one is accepted and every other is a checksum mismatch; another prefix is refused |
| `MoneroAddress.BuiltAddressParses` | crypto/monero/address.go:171-194 | an address built from keys validates in its environment and survives printing and parsing |
| `MoneroAddress.AddressLayout` | crypto/monero/address.go:171-194 | prefix 18 or 24, then spend key, then view key, then the first four bytes of their hash |
| `MoneroAddress.EnvironmentsDisjoint` | crypto/monero/address.go:141-162 | an address is accepted in stagenet exactly with prefix 24 or 36 and elsewhere exactly with 18 or 42; testnet is refused |
| `MoneroAddress.ClaimAddress` | crypto/monero/address.go:171-194 | a key pair has the address of the wallet built from summed public keys if and only if it is the claim key pair |
| `MoneroAddress.AddressInjective` | crypto/monero/address.go:171-194 | addresses of one environment agree if and only if both public keys do |
| `DecimalCells.IncreaseExponent` | coins/exponent.go:22-29 | 32-bit addition; panics exactly on overflow |
| `DecimalCells.DecreaseExponent` | coins/exponent.go:31-38 | 32-bit subtraction; panics exactly on underflow |
| `DecimalCells.CountDecimals` | coins/round.go:35-46 | counts the decimals and rewrites its argument in reduced form with the same value |
| `DecimalCells.ExceedsDecimals` | coins/round.go:29-31 | compares the decimals needed with a limit; only the argument's representation changes |
| `DecimalCells.RoundToPlace` | coins/round.go:11-24 | rounds a copy, the argument keeps even its representation; panics exactly when the shifted 32-bit exponent overflows |
| `DecimalCells.CalcAlt` | coins/round.go:70-111 | computes the suggestion and reduces the denominator in place without changing its value; panics exactly when rounding does |
| `DecimalCells.ConvertToXMR` | coins/exchange_rate.go:60-80 | outcome and error of the conversion; never panics, and rewrites the rate only on refusal, keeping its value |
| `DecimalCells.ConvertToAsset` | coins/exchange_rate.go:84-123 | outcome and error of the conversion to ether or to a token with that many decimals; neither argument changes |
| `DecimalCells.Validate` | coins/validate.go:14-50 | missing, zero, negative, too long and too precise values are refused in that order; an accepted one is left reduced with the same value |
| `DecimalCells.AsStandard` | coins/coins.go:106-111 | a copy shifted down and reduced, the units untouched; panics exactly on exponent underflow |
| `DecimalCells.AsUnits` | coins/coins.go:67-78 | a copy shifted up and rounded to whole units; panics on exponent overflow and on a rounding error, each told apart |
| `Decimals.NumDecimalsIff` | coins/round.go:35-46 | the count is at most n exactly when n shifts make the value whole |
| `Decimals.ReducedUnique` | coins/round.go:35-40 | equal values in reduced form are the same decimal |
| `Decimals.CmpOrders` | common/types/offer.go:140-142 | comparing coefficients at a common exponent orders the values |
| `DecimalArith.RoundIsNearest` | coins/round.go:11-24 | the result is the nearest multiple of 10^-n, ties away from zero, in reduced form |
| `DecimalArith.RoundOkIff` | coins/round.go:11-24 | rounding any decimal to any place succeeds if and only if the shifted exponent is at most 100000, and at least -100000 or the shifted value below a tenth; having digits to round off never matters |
| `DecimalArith.RoundMonotone` | coins/round.go:11-24 | rounding preserves order |
| `DecimalArith.RoundIdentityIff` | coins/round.go:11-24 | rounding leaves the value exactly when it has at most n decimals |
| `DecimalArith.RoundIdempotent` | coins/round.go:11-24 | rounding twice is rounding once, and the second rounding fails exactly when the exponent leaves the range |
| `DecimalArith.QuotientBounds` | coins/common.go:28-29 | the 100-digit quotient times the divisor misses the dividend by at most half a unit in the last place |
| `DecimalArith.QuotientExact` | coins/common.go:28-29 | a true quotient of at most 100 digits is found exactly |
| `DecimalArith.FitBelowIff` | coins/common.go:28-29 | rounding to 100 digits stays below 10^n if and only if the value is below it by more than half a unit in the hundredth digit |
| `DecimalArith.FitClose` | coins/common.go:28-29 | a product rounded to 100 digits errs by at most half a unit in the hundredth |
| `DecimalArith.QuotientBelowIff` | coins/common.go:28-29 | the rounded quotient is below 10^n if and only if the true one is, by more than half a unit in the hundredth digit |
| `Coins.ValidatePositiveIff` | coins/validate.go:14-50 | accepted are exactly the positive values with few enough decimals and at most 100 significant digits, however written |
| `Coins.ValidateErrors` | coins/validate.go:14-50 | which refused value gets which error, by value alone |
| `Coins.UnitsRoundTrip` | coins/coins.go:193-230 | whole units to a standard amount and back is the identity below 10^100, for every number of decimals up to 255 |
| `Coins.ToUnitsOkIff` | coins/coins.go:193-204 | converting an amount without fractions of a unit fails if and only if its exponent in units exceeds 100000 |
| `Coins.PiconeroRoundTrip` | coins/coins.go:21-111 | every uint64 of piconero survives conversion to XMR and back |
| `Coins.Uint64Iff` | coins/coins.go:37-47 | a number comes out if and only if the decimal is that whole number below 2^64, not written with decimals |
| `Coins.BigIntIff` | coins/coins.go:207-222 | the nearest whole number comes out if and only if it has at most 100 digits and the exponent is in range |
| `Coins.WeiRoundTrip` | coins/coins.go:151-230 | every amount of wei below 10^100 survives conversion to ether and back to a big integer |
| `Coins.TokenRoundTripIff` | coins/coins.go:311-357 | a token amount made from a big integer gives it back if and only if it has at most 100 digits |
| `ExchangeRates.ToXMRIff` | coins/exchange_rate.go:60-80 | for any amount within the 100-digit bound and any rate with six decimals: success if and only if the division stays in range and some whole number of piconero is worth exactly the amount, which is then returned |
| `XmrAmounts.EvmToXMRIff` | coins/exchange_rate.go:60-80 | for every uint256 of wei and every rate with six decimals, with no side condition: a conversion succeeds if and only if some whole number of piconero is worth exactly the amount, and returns it |
| `ExchangeRates.ToXMRFinds` | coins/exchange_rate.go:60-80 | beyond the bound too, an exact quotient with 12 decimals and 100 digits is returned if and only if the exponents stay in range |
| `ExchangeRates.EvmAmountsFit` | coins/exchange_rate.go:60-80 | every amount of wei a uint256 can hold is within the bound |
| `ExchangeRates.InexactBeyondBound` | coins/exchange_rate.go:60-80 | the bound is sharp: 2*10^99+1 wei at rate 2E-6 is accepted and worth one wei more |
| `ExchangeRates.SuggestionFits` | coins/round.go:70-111 | a suggested amount never needs more decimals than the asset has |
| `ExchangeRates.SuggestionPlace` | coins/round.go:82-91 | the rounding place behind a suggestion is maximal: within the result's decimals, every amount on it times the rate fits the asset, and the next place would not unless it is the result's last |
| `ExchangeRates.RoundingPlaceIff` | coins/round.go:82-91 | a place exists if and only if the rate itself fits the asset's decimals and the place fits a byte |
| `ExchangeRates.SuggestionDivides` | coins/round.go:70-111 | for any unrounded quotient: when the product fits 100 digits the suggestion is rounded XMR amount times rate, and retrying returns that amount if and only if the exponents stay in range |
| `XmrAmounts.SuggestionRetries` | coins/exchange_rate.go:67-77 | after every refusal whose product fits 100 digits, converting the suggestion again succeeds and returns exactly the rounded XMR amount |
| `XmrAmounts.EvmSuggestionRetries` | coins/exchange_rate.go:67-77 | after every refusal of a uint256 of wei at a rate with six decimals, converting the suggestion again gives the XMR amount nearest to the quotient among all of whole piconero, and the suggestion misses the request by at most half a piconero's worth plus half a unit in the last digit of the division |
| `XmrAmounts.EvmSuggestionIff` | coins/exchange_rate.go:67-77 | such a refusal carries a suggestion if and only if the quotient rounds to at least one piconero |
| `ExchangeRates.SuggestionClose` | coins/round.go:70-111 | the suggestion misses the amount by at most rate times half a unit of the rounding place plus the quotient's own rounding |
| `ExchangeRates.RateAccuracy` | coins/exchange_rate.go:21-31 | a computed rate has at most six decimals and misses the price ratio by at most half a unit of the sixth |
| `PriceRates.RateOkIff` | coins/exchange_rate.go:21-31 | for positive prices a rate is computed if and only if their exponents differ by at most 100000 and their 100-digit ratio lies from 10^-100000 to below 10^100001 |
| `PriceRates.RateSucceeds` | coins/exchange_rate.go:21-31 | in particular for all prices whose leading digits are less than 99800 places apart |
| `PriceRates.RateOfZero` | coins/exchange_rate.go:21-31 | a zero XMR price gives a zero rate and a zero ETH price an error |
| `PriceRates.QuoOkIff` | coins/common.go:28-29 | exactly when a division succeeds |
| `AssetAmounts.ToAssetOkIff` | coins/exchange_rate.go:84-123 | with few enough decimals in amount and rate, multiplying succeeds if and only if the exact product is below 10^100001 - 10^99901/2; precision is never the reason |
| `AssetAmounts.ToTokenIff` | coins/exchange_rate.go:106-123 | below 10^82 a conversion to a token succeeds if and only if the product is a whole number of token units, is then exact, and otherwise fails for precision |
| `AssetAmounts.ToWeiIff` | coins/coins.go:193-222 | XMR to ether to wei to big integer gives exactly amount times rate times 10^18 if that is below 10^100, and fails otherwise |
| `DecimalText.TextRoundTrip` | common/types/offer.go:91-104 | the text of a decimal without exponent, read back, has the same value, and holds no comma |
| `DecimalText.TextInjective` | common/types/offer.go:62-68 | reduced decimals have equal texts exactly when their values are equal |
| `OfferText.AssetInjective` | common/types/ethasset.go:28-35 | assets with the same text are the same address, whatever the letter case checksum |
| `OfferText.PreimageInjective` | common/types/offer.go:91-104 | equal hashed texts force equal version, coin, amounts, rate, asset and nonce |
| `OfferText.ReadPreimage` | common/types/offer.go:91-104 | reading the hashed text gives the terms back, each field from its own place and in the source's order |
| `Offers.ValidateIff` | common/types/offer.go:128-179 | validation accepts exactly identified offers with ordered positive piconero amounts up to 1000 XMR, a minimum whose exact value exceeds the relayer fee and stays below the limit of the arithmetic, and a matching hash |
| `Offers.ValidateStable` | common/types/offer.go:211-228 | an accepted offer validates again, unchanged |
| `Offers.AcceptedOfferPays` | relayer/validate.go:70-74 | for every accepted offer and XMR amount in its limits, the wei sent are exactly amount times rate and above the relayer fee, unless they need more than 100 digits, in which case conversion fails |
| `Offers.AcceptedOfferConverts` | coins/exchange_rate.go:84-101 | within an accepted offer an amount converts if and only if amount times rate is below the limit, and all amounts convert if and only if maximum times rate is |
| `Offers.ConversionCanFail` | coins/exchange_rate.go:84-101 | both failures exist in one accepted offer at rate 1E100000: its maximum does not convert to ether, and its minimum does but then fails to convert to wei |
| `Offers.NewOfferIdMatches` | common/types/offer.go:50-104 | a new offer is never rejected for its identifier |
| `Offers.NewOfferAccepted` | common/types/offer.go:50-104 | a new offer is accepted, unchanged, if and only if its own arguments are valid, in order, at most 1000 XMR, and its minimum is worth more than 10^16 wei and below the limit of the arithmetic |
| `Offers.OfferIdIff` | common/types/offer.go:50-104 | absent a hash collision, two new offers share an identifier if and only if all terms agree, decimals by value and not by spelling |
| `OfferRecords.OfferRecord.constructor` | common/types/offer.go:50-89 | reduces its three arguments in place, keeps their values, and sets the identifier of the reduced terms |
| `OfferRecords.OfferRecord.Validate` | common/types/offer.go:128-179 | rejects as specified and leaves both amounts with their value, even when they are one shared decimal |
| `VaultRuns.Reachable` | ethereum/contracts/VaultManager.sol:206-596 | every state of every run, with any callers, times and prices, satisfies the whole invariant |
| `VaultRuns.SupplyIsDebt` | ethereum/contracts/VaultManager.sol:369-596 | in every reachable state the wsXMR supply equals the sum of all vault debts and of all balances |
| `VaultRuns.PoolIsCollateralAndEscrow` | ethereum/contracts/VaultManager.sol:226-596 | in every reachable state the manager holds, per asset, exactly vault collateral plus escrow of pending burns |
| `VaultRuns.EscrowLeavesOnce` | ethereum/contracts/VaultManager.sol:500-544 | in every run each escrow leaves at most once, in full, to the vault before the deadline or to the user from the deadline on |
| `VaultLedger.PaidAsLogged` | ethereum/contracts/VaultManager.sol:250-596 | in every run each address has received, of each asset, exactly its own withdrawals, the escrows of its own slashed burns and what it seized as a keeper; the ledger is written only by the transfer |
| `VaultLedger.VaultAccounts` | ethereum/contracts/VaultManager.sol:226-596 | in every run each vault holds exactly its own deposits and returned escrows less its own withdrawals, escrows and seizures, and owes exactly its own mints less its own burns and liquidations |
| `VaultRuns.IssuedAgainstLockedXmr` | ethereum/contracts/VaultManager.sol:291-596 | 10^4 times supply, burned and liquidated wsXMR never exceeds the XMR of finalized mints, falls short by less than 10^4 per mint, and covers all XMR asked for by burns |
| `VaultRuns.SlashedClaimPays` | ethereum/contracts/VaultManager.sol:525-544 | in every reachable state the user of a pending burn can collect the escrow exactly from the deadline on; the pool never lacks it |
| `VaultRuns.HonouredBurnReturns` | ethereum/contracts/VaultManager.sol:500-519 | in every reachable state a pending burn finalizes exactly before its deadline with a valid secret |
| `VaultRuns.ReadyMintFinalizes` | ethereum/contracts/VaultManager.sol:369-389 | in every reachable state a ready mint finalizes exactly with a valid secret, unless the supply overflows |
| `VaultRuns.DebtFreeVaultWithdraws` | ethereum/contracts/VaultManager.sol:250-279 | a vault without debt can withdraw any part of its collateral whatever the oracles say |
| `VaultRuns.RequestsAdvance` | ethereum/contracts/VaultManager.sol:355-544 | over every continuation, requests change only their status, only forward, and vaults keep their asset |
| `VaultJourneys.MintStarts` | ethereum/contracts/VaultManager.sol:291-349 | exactly when a mint starts and the one request it stores |
| `VaultJourneys.MintReadies` | ethereum/contracts/VaultManager.sol:355-362 | over every continuation, the provider named in the mint call marks it ready exactly while it is pending |
| `VaultJourneys.MintFinalizes` | ethereum/contracts/VaultManager.sol:369-389 | over every continuation, a ready mint finalizes exactly with a secret of the call's commitment; the caller of the mint receives xmr/10^4 and the named vault owes as much more, nobody else changes |
| `VaultJourneys.MintCancels` | ethereum/contracts/VaultManager.sol:395-412 | over every continuation, the caller of the mint cancels it exactly from call time plus duration, 24 hours later once ready |
| `VaultJourneys.BurnStarts` | ethereum/contracts/VaultManager.sol:423-493 | exactly when a burn starts and what moves: the caller's tokens, the vault's debt and the escrow |
| `VaultJourneys.EscrowValue` | ethereum/contracts/VaultManager.sol:423-493 | the escrow is worth 120% of the burned amount at the call's prices, short only by a stated rounding |
| `VaultJourneys.BurnFinalizes` | ethereum/contracts/VaultManager.sol:500-519 | over every continuation, a pending burn finalizes exactly within 86400 seconds of its call and with a secret of its commitment, and the escrow returns to the vault it named |
| `VaultJourneys.BurnSlashes` | ethereum/contracts/VaultManager.sol:525-544 | over every continuation, the caller of the burn and nobody else collects the escrow exactly from 86400 seconds after the call on |
| `VaultJourneys.VaultCreated` | ethereum/contracts/VaultManager.sol:206-220 | one vault per provider, in a supported asset, which it keeps for ever |
| `VaultJourneys.DepositSucceeds` | ethereum/contracts/VaultManager.sol:226-244 | exactly when a deposit succeeds in a reachable state, and what it changes |
| `VaultJourneys.WithdrawSucceeds` | ethereum/contracts/VaultManager.sol:250-279 | exactly when a withdrawal succeeds in a reachable state, and who is paid |
| `VaultJourneys.LiquidateSucceeds` | ethereum/contracts/VaultManager.sol:553-596 | exactly when a liquidation succeeds in a reachable state |
| `VaultJourneys.LiquidateMoves` | ethereum/contracts/VaultManager.sol:553-596 | everything a liquidation changes |
| `VaultJourneys.SupportChanges` | ethereum/contracts/VaultManager.sol:746-759 | only the owner changes the supported assets, and adding one needs a feed |
| `VaultLiquidation.SeizedValue` | ethereum/contracts/VaultManager.sol:681-693 | the three floor divisions never seize more than the stated percentage of the debt, and less only by a stated rounding |
| `VaultLiquidation.LiquidationKeepsRatio` | ethereum/contracts/VaultManager.sol:553-596 | from an exact ratio of 110% or more, any liquidation takes the priced bonus without the clamp and never lowers the ratio |
| `VaultLiquidation.BurnKeepsRatio` | ethereum/contracts/VaultManager.sol:423-493 | from an exact ratio of 120% or more, setting the escrow aside never lowers the ratio |
| `VaultLiquidation.LiquidationKeepsRatioIff` | ethereum/contracts/VaultManager.sol:553-596 | a liquidation leaves the ratio no lower if and only if it clears all debt, there was no collateral, or the priced bonus is within the cleared debt's share of the collateral; the clamp included |
| `VaultLiquidation.LiquidationLowersRatio` | ethereum/contracts/VaultManager.sol:553-596 | every partial liquidation of a vault short of 110% by more than the rounding of the prices lowers the ratio, clamped or not |
| `VaultLiquidation.LiquidationBelowBonusLowersRatio` | ethereum/contracts/VaultManager.sol:553-596 | it happens in a run from deployment: vault, deposit, mint at 150%, a fall in the collateral price, and a half liquidation |
| `VaultHealth.RatioIff` | ethereum/contracts/VaultManager.sol:655-676 | comparing the rounded ratio with a whole percentage is the comparison of the two rounded USD values |
| `VaultHealth.RatioOkIff` | ethereum/contracts/VaultManager.sol:655-676 | exactly when the contract can rate a vault: supported, priced, no overflow, debt worth at least 1e-18 USD |
| `VaultHealth.CollateralForOkIff` | ethereum/contracts/VaultManager.sol:681-693 | exactly when the contract can price collateral for a debt |
| `VaultHealth.RatioExact` | ethereum/contracts/VaultManager.sol:655-676 | in exact arithmetic: a ratio of at least P means worth more than P% of the debt less 1e-18 USD of it, a ratio below P means worth less than P% plus 1e-18 USD |
| `VaultHealth.ReadableCover` | ethereum/contracts/VaultManager.sol:655-676 | a contract ratio of at least P+1 with debt worth P times 1e-18 USD means worth P% of the debt exactly |
| `VaultHealth.RatedVaultKeepsRatio` | ethereum/contracts/VaultManager.sol:553-596 | a vault the contract rates at 111% or more is never worse off after a liquidation |
| `VaultHealth.MintNeedsCover` | ethereum/contracts/VaultManager.sol:291-349 | a mint is accepted only against exact cover of 150% including the new debt, to within 1e-18 USD, and moves nothing yet |
| `VaultHealth.WithdrawLeavesCover` | ethereum/contracts/VaultManager.sol:250-279 | an indebted vault exactly covers 150% after every withdrawal, to within 1e-18 USD |
| `VaultHealth.LiquidationNeedsShortfall` | ethereum/contracts/VaultManager.sol:553-596 | only a vault short of 120%, to within 1e-18 USD, is liquidated; the keeper gives up exactly the debt cleared and receives exactly the collateral that leaves |
| `VaultContract.VaultManager.CreateVault` | ethereum/contracts/VaultManager.sol:206-220 | keeps the invariant of all runs; in-place storage updates give the modelled next state, or its error with nothing changed: one vault per provider, supported asset, nothing in it |
| `VaultContract.VaultManager.DepositCollateral` | ethereum/contracts/VaultManager.sol:226-244 | keeps the invariant of all runs; in-place storage updates give the modelled next state, or its error with nothing changed: value checks and the credit to vault and pool |
| `VaultContract.VaultManager.WithdrawCollateral` | ethereum/contracts/VaultManager.sol:250-279 | keeps the invariant of all runs; in-place storage updates give the modelled next state, or its error with nothing changed: ratio check on what remains, then the payout |
| `VaultContract.VaultManager.InitiateMint` | ethereum/contracts/VaultManager.sol:291-349 | keeps the invariant of all runs; in-place storage updates give the modelled next state, or its error with nothing changed: all checks in order, the rounded amount and the stored request |
| `VaultContract.VaultManager.SetMintReady` | ethereum/contracts/VaultManager.sol:355-362 | keeps the invariant of all runs; in-place storage updates give the modelled next state, or its error with nothing changed: provider only, pending only |
| `VaultContract.VaultManager.FinalizeMint` | ethereum/contracts/VaultManager.sol:369-389 | keeps the invariant of all runs; in-place storage updates give the modelled next state, or its error with nothing changed: secret check, debt raised and tokens minted together |
| `VaultContract.VaultManager.CancelMint` | ethereum/contracts/VaultManager.sol:395-412 | keeps the invariant of all runs; in-place storage updates give the modelled next state, or its error with nothing changed: user only, after the timeout, a day later once ready |
| `VaultContract.VaultManager.InitiateBurn` | ethereum/contracts/VaultManager.sol:423-493 | keeps the invariant of all runs; in-place storage updates give the modelled next state, or its error with nothing changed: escrow, debt and tokens move together |
| `VaultContract.VaultManager.FinalizeBurn` | ethereum/contracts/VaultManager.sol:500-519 | keeps the invariant of all runs; in-place storage updates give the modelled next state, or its error with nothing changed: before the deadline the escrow goes back to the vault |
| `VaultContract.VaultManager.ClaimSlashedCollateral` | ethereum/contracts/VaultManager.sol:525-544 | keeps the invariant of all runs; in-place storage updates give the modelled next state, or its error with nothing changed: from the deadline the escrow is paid to the user |
| `VaultContract.VaultManager.Liquidate` | ethereum/contracts/VaultManager.sol:553-596 | keeps the invariant of all runs; in-place storage updates give the modelled next state, or its error with nothing changed: clamps, ratio check, tokens burned and collateral paid |
| `VaultContract.VaultManager.AddCollateralSupport` | ethereum/contracts/VaultManager.sol:746-751 | keeps the invariant of all runs; in-place storage updates give the modelled next state, or its error with nothing changed: owner only, with a feed |
| `VaultContract.VaultManager.RemoveCollateralSupport` | ethereum/contracts/VaultManager.sol:756-759 | keeps the invariant of all runs; in-place storage updates give the modelled next state, or its error with nothing changed: owner only |
| `SwapRuns.Reachable` | ethereum/contracts/SwapCreator.sol:167-328 | every state of every run satisfies the whole invariant |
| `SwapRuns.EachSwapPaidOnce` | ethereum/contracts/SwapCreator.sol:233-328 | in every run a swap has been paid exactly its value once completed and nothing before, and every settlement fell in its own window: claims from ready or timeout1 until timeout2, refunds outside it |
| `SwapRuns.PaidAsSettled` | ethereum/contracts/SwapCreator.sol:233-328 | in every run each address has received exactly what the settlements owe it, the relayer its fee; the ledger is written only by the transfer |
| `SwapRuns.SettlementRecords` | ethereum/contracts/SwapCreator.sol:233-328 | a settlement records the stage the swap was in and the time of the call, and completes it |
| `SwapRuns.HoldingsCoverOpenSwaps` | ethereum/contracts/SwapCreator.sol:167-328 | in every reachable state holdings are exactly the open swaps plus value that belongs to none |
| `SwapRuns.ExitAlwaysOpen` | ethereum/contracts/SwapCreator.sol:291-328 | at every time an open swap can be claimed or refunded as far as time goes, and both only at timeout1 while pending |
| `SwapRuns.ClaimSucceeds` | ethereum/contracts/SwapCreator.sol:233-248 | a claim succeeds exactly for the claimer, in the window, with the secret, unless it would send ether to the contract itself; funds are never missing |
| `SwapRuns.RefundSucceeds` | ethereum/contracts/SwapCreator.sol:307-328 | a refund succeeds exactly for the owner, in its window, with the secret, unless it would send ether to the contract itself |
| `SwapRuns.RelayedClaimSucceeds` | ethereum/contracts/SwapCreator.sol:258-289 | a relayed claim succeeds exactly with the claimer's signature, this contract, the relayer's hash, the window, the secret and a fee within the value, unless it would send ether to the contract itself |
| `SwapRuns.StagesAdvance` | ethereum/contracts/SwapCreator.sol:222-328 | over every continuation a swap's stage only moves forward |
| `SwapJourneys.NewSwapIff` | ethereum/contracts/SwapCreator.sol:167-218 | exactly when a swap is created and what comes in |
| `SwapJourneys.NewSwapAdds` | ethereum/contracts/SwapCreator.sol:190-218 | creation adds exactly one swap, pending, with the call's own owner, claimer, commitments, timeouts, asset and value |
| `SwapJourneys.ClaimJourney` | ethereum/contracts/SwapCreator.sol:233-248 | over every continuation, a claim succeeds exactly for the claimer of the creating call, with a secret of its claim commitment, from ready or duration1 on until duration1 + duration2, and pays that claimer that value and nobody else |
| `SwapJourneys.RefundJourney` | ethereum/contracts/SwapCreator.sol:307-328 | over every continuation, a refund succeeds exactly for the creator, with a secret of its refund commitment, outside that window, and pays the creator that value and nobody else |
| `SwapJourneys.ReadyJourney` | ethereum/contracts/SwapCreator.sol:222-228 | over every continuation, exactly the creator sets the swap ready, exactly while pending |
| `SwapJourneys.RelayJourney` | ethereum/contracts/SwapCreator.sol:258-289 | over every continuation, a relayed claim succeeds exactly in the claim window with the claimer's signature for this contract and relayer, and pays the relayer the fee and the claimer the rest |
| `SwapContract.SwapCreator.NewSwap` | ethereum/contracts/SwapCreator.sol:167-218 | keeps the invariant of all runs; in-place storage updates give the modelled next state, or its error with nothing changed: checks in order, value taken in, stage pending |
| `SwapContract.SwapCreator.SetReady` | ethereum/contracts/SwapCreator.sol:222-228 | keeps the invariant of all runs; in-place storage updates give the modelled next state, or its error with nothing changed: owner only, pending only |
| `SwapContract.SwapCreator.Claim` | ethereum/contracts/SwapCreator.sol:233-248 | keeps the invariant of all runs; in-place storage updates give the modelled next state, or its error with nothing changed: guards, completion and payout |
| `SwapContract.SwapCreator.ClaimRelayer` | ethereum/contracts/SwapCreator.sol:258-289 | keeps the invariant of all runs; in-place storage updates give the modelled next state, or its error with nothing changed: signature, guards, completion and split payout |
| `SwapContract.SwapCreator.Refund` | ethereum/contracts/SwapCreator.sol:307-328 | keeps the invariant of all runs; in-place storage updates give the modelled next state, or its error with nothing changed: guards, completion and payout to the owner |
| `RegistryRuns.NeverOverwritten` | net/initiate.go:28-158 | no critical section ever replaces a registered swap by another stream's, and only its own failing handler or a delete removes it |
| `RegistryRuns.EntryKeepsStream` | net/initiate.go:28-158 | over any stretch of any interleaving in which an offer stays registered, it stays with one stream |
| `RegistryRuns.RegisteredUntilDeleted` | net/host.go:183-231 | a swap registered with its state stays, on its stream, over every continuation without a delete of its offer |
| `RegistryRuns.Registers` | net/initiate.go:28-140 | what each critical section registers, marks and removes |
| `RegistryRuns.OneHandlerPerOffer` | net/initiate.go:99-158 | handlers that own their placeholder are at most one per offer |
| `RegistryRuns.OwnershipIffQuiet` | net/initiate.go:99-158 | over every interleaving, handlers own their placeholder at every moment and nothing panics if and only if no offer is deleted under its running handler |
| `RegistryRuns.QuietHandlerEnds` | net/initiate.go:142-155 | then a failing handler removes exactly its own placeholder and a succeeding one finds its entry |
| `RegistryRuns.DeletedUnderHandler` | net/host.go:215-231 | otherwise both break: a missing entry panics, and a stranger's placeholder is removed |
| `RegistryHost.Host.Initiate` | net/initiate.go:28-68 | registers the swap exactly when the offer is free and connecting, opening and sending all succeeded; handlers keep their entries |
| `RegistryHost.Host.Receive` | net/initiate.go:99-140 | inserts the placeholder and starts the handler exactly when the offer is free; handlers keep their entries |
| `RegistryHost.Host.DropPlaceholder` | net/initiate.go:142-150 | while handlers own their entries, a failed handler removes its own placeholder and no other entry |
| `RegistryHost.Host.SetSwapState` | net/initiate.go:152-155 | panics exactly when the entry is gone, which never happens while handlers own their entries |
| `RegistryHost.Host.CloseProtocolStream` | net/host.go:196-210 | marks the stream closed once, closing it only the first time; handlers keep their entries |
| `RegistryHost.Host.DeleteOngoingSwap` | net/host.go:215-231 | removes the entry of that offer only; handlers keep theirs if and only if none is running for it |
| `RegistryHost.Host.SendSwapMessage` | net/host.go:183-193 | writes to the registered stream, or reports that the swap is not ongoing |
| `StoreModel.KeyInjective` | db/recovery_db.go:14-38 | no key of one table, record kind or swap is the key of another |
| `RecoveryStore.Refines` | db/database.go:52-136 | every operation on the byte keys does to the separate tables what it should and touches no other record |
| `RecoveryStore.RunRefines` | db/database.go:52-136 | after any sequence of operations the one database answers as three tables and six maps per swap would |
| `RecoveryStore.ReadsLast` | db/database.go:88-223 | after any sequence of operations a read returns what was last put there and not deleted since, whatever was done to other records |
| `RecoveryStore.DeleteSwapRemovesSix` | db/recovery_db.go:254-272 | deleting a swap's records removes exactly its six and leaves every other read as it was |
| `RecoveryStore.Database.DeleteSwap` | db/recovery_db.go:254-272 | the loop over the six keys removes exactly that swap's recovery records from the tables the database stands for |
| `RecoveryStore.Database.PutRecovery` | db/recovery_db.go:45-231 | changes exactly one recovery record of the tables the database stands for |
| `RecoveryStore.Database.PutOffer` | db/database.go:88-101 | changes exactly one offer of the tables the database stands for |
| `RecoveryStore.Database.DeleteOffer` | db/database.go:104-106 | removes exactly one offer of the tables the database stands for |
| `RecoveryStore.Database.PurgeInvalidOffer` | db/database.go:121-136 | removes the offer and the swap of the same identifier from the tables, nothing else |
| `RecoveryStore.Database.PutSwap` | db/database.go:188-201 | changes exactly one swap of the tables the database stands for |
| `RecoveryStore.Database.Read` | db/database.go:110-117 | every read answers as the separate tables would |

## Left out

- VaultManager: reentrancy locks, gas, fee-on-transfer tokens and ether forced into the contract are not modelled, and events that move no collateral are dropped.
- VaultManager: price feeds are inputs; staleness and sign checks of the oracle appear only as a missing price.
- VaultManager: that vaults stay above 150% is not claimed, because finalizing a mint does not recheck the ratio and pending mints do not reserve debt.
- wsXMR: the manager is taken as the sole minter and burner; ownership transfer and `setVaultManager` are not modelled.
- VaultContract.VaultManager.FinalizeMint: the source reads a missing vault as an empty one; the model returns an error there, a branch no reachable state takes (every request names an existing vault).
- VaultContract.VaultManager.FinalizeBurn: the same unreachable branch for a missing vault.
- VaultContract.VaultManager.ClaimSlashedCollateral: the same unreachable branch for a missing vault.
- Decimals: NaN and infinite values are not represented; the arithmetic traps that would produce them are errors here.
- DecimalCells: exponents that `Reduce` itself would push past the int32 limit are not wrapped.
- XmrAmounts.SuggestionRetries: the same condition as the next line; it is discharged for every uint256 of wei.
- ExchangeRates.SuggestionDivides: stated when the product of rounded amount and rate has at most 100 digits; beyond that the suggestion is itself rounded.
- ExchangeRates.SuggestionClose: the same condition.
- Offers: the order in which JSON decoding reports several bad fields at once, version comparison, and zero nonces rejected by the decoder.
- OfferRecords.OfferRecord.Validate: the rate is taken not to share memory with the amounts, which have another type.
- Curve, Keccak, SHA3 and ECDSA arithmetic and the secp256k1 check are abstract.
- Swap identifiers as Keccak hashes of ABI-encoded fields.
- RegistryHost: stream contents, message handling after initiation, timeouts and discovery.
- RecoveryStore: JSON encoding of the records, iteration over all offers or swaps, and errors of the underlying store; the exported `DeleteSwap` does nothing in the source.
- The block poller of the wsXMR daemon, RPC, command line, user interface and Monero wallet processes: input and output only.
