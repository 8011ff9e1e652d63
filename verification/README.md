# Verified models of mpool

These Dafny modules model the arithmetic, protocol and state-machine core of the mpool server and of the {fmt}
library it carries, and prove what that code promises. `dafny verify dfyconfig.toml` checks everything.

Exact decimal conversion, from {fmt}:

- `Arithmetic`, `Options`, `Bigits`: powers, products and remainders; optional values; numbers as sequences of 32-bit
  bigits.
- `Comparison`, `Bigints`: what the two comparisons decide for any operands and for which of them that is the order of
  the numbers; the `bigint` class updated in place, every method specified by what it does to the denoted integer.
- `DecimalText`, `Dragon`: digit strings, carry and rounding; `format_dragon` for a given number of digits. The limits
  of comparison and division never matter there: a power of ten and a 64-bit significand times a power of two cannot
  be equal where the exponents would let the comparison miss it, no division leaves a zero longer than its divisor,
  and a numerator below ten times the denominator is short enough.
- `Grisu`: `grisu_gen_digits` with its handler, including the early exit of fixed precision.
- `ModularInverse`: divisibility and trailing-zero removal by multiplication with modular inverses.
- `DecimalDigits`: digit counting by tables and by loop, decimal output two digits at a time, and integer parsing.
- `FormatString`: both format-string algorithms, when they agree, a character-by-character meaning, and the round trip
  from written format strings to handler calls.
- `OutputBuffer`: the truncating buffers in front of an iterator and of a caller's array.
- `IsoWeek`: ISO 8601 week dates against the proleptic Gregorian calendar.

Server code:

- `Srp6`: registration, the SRP-6 server and its interleaved hash. Numbers are unbounded integers, the hash is an
  arbitrary function to 20 bytes, random values are parameters.
- `WorkerQueue`, `WorkerProgress`: the producer/consumer queue as a class, and the worker threads as a state machine
  over atomic steps: safety and order, then who ends, who abandons, and that everything taken is served. An operation
  a worker drops because its cancelation flag is set has a place of its own, "abandoned".
- `Transactions`: element lists and their clean-up, execution with rollback, and three ways to commit with retries.
  The database is the list of the statements that took effect; what comes of each statement is arbitrary: success, a
  failure with any error number, or a lost connection, after which the client reconnects and executes it again.
- `ConnectionPool`: the search for a free connection with an 8-bit counter; what other threads hold is arbitrary.
- `QueryChain`: chained query callbacks and the processor that polls them.
- `ResultLoader`: the result set that packs all cells into one buffer.

Bigits are a `seq` field that the methods reassign, as are queues and lists; fixed buffers are arrays. Long source
functions are split into one Dafny method per loop or step, with the same branches and constants. The `std::promise`
and the derived task class become fields of `TransactionWithResultTask`. A lemma that refers to a source line
without code of its own states what the code there computes.

Findings, where the code does less than one might expect:

- `compare` misses equality when the left exponent is larger and the right lowest bigit is zero
  (`Comparison.CompareExactIff`); `divmod_assign` then returns 0 with a remainder equal to the divisor.
- `compare` and `add_compare` look at the number of bigits first, and a zero keeps its exponent, so they take it for
  larger than any shorter number (`Comparison.LongZeroMisjudged`, at one input `Comparison.ZeroAboveOne`). Dividing
  such a zero gives a wrong quotient (`Bigints.DivisionExactly`).
- `subtract_aligned` takes the rest of a borrow from one bigit only. If that bigit is zero the difference is wrong
  (`Bigints.BorrowStuckExample`), so `divmod_assign` never ends for a nonzero dividend more than one bigit longer than
  its divisor (`Bigints.Bigint.DivModRounds`), and always ends for any other.
- The early exit of `grisu_gen_digits` for fixed precision reports an error for values near the half of its unit that
  the error of one decides (`Grisu.EarlyErrorExactly`, `Grisu.NeedlessError`); the caller then uses the exact method.
- `parse_nonnegative_int` counts characters, so a small number with leading zeros can be refused
  (`DecimalDigits.AcceptedSpellings`).
- The two format-string algorithms differ in when they report empty text, which a handler could notice
  (`FormatString.AgreeExactly`).
- ISO week dates at the turn of a negative 53-week year are wrong (`IsoWeek.IsoWeekDateExactly`).
- A prepared statement appended to a transaction after its clean-up is never deleted, and one appended twice is
  deleted twice (`Transactions.FreedExactlyOnce`, `Transactions.LeakExample`, `Transactions.DoubleAppendExample`).
- A connection lost inside a transaction is replaced by one without a transaction: the queries before the loss are
  gone, those from it on take effect one by one, and the commit is reported (`Transactions.AtomicExactly`,
  `Transactions.LossExample`).
- A statement that fails with error number 0 makes a transaction report success after its rollback
  (`Transactions.SilentExactly`, `Transactions.TrueWithoutCommit`).
- A value longer than its column is cut off in the result buffer but keeps its full length, so its field reads into the
  bytes behind (`ResultLoader.ReadsExactly`). Text columns are wide enough (`ResultLoader.TextFitsExactly`); decimals of
  more than 62 digits may not fit (`ResultLoader.DecimalFitsExactly`), and columns of a type without a listed size get
  no room at all (`ResultLoader.UnlistedTypeMisread`).

## Model

| member | source | states |
|---|---|---|
| Bigints.Accumulator.Add | deps/fmt/include/fmt/format-inl.h:360-363 | the 128-bit total of the two words grows by exactly n as long as it fits |
| Bigints.Accumulator.ShiftRight32 | deps/fmt/include/fmt/format-inl.h:364-369 | the total is divided by 2^32, rounding down |
| Bigints.Bigint.SubtractBigits | deps/fmt/include/fmt/format-inl.h:393-398 | in wrapping 64-bit arithmetic: the bigit loses other + borrow, plus 2^32 exactly when it is smaller than that, and only then a borrow goes on |
| Bigints.Bigint.RemoveLeadingZeros | deps/fmt/include/fmt/format-inl.h:399-404 | same number, no superfluous leading zero bigit |
| Bigints.Bigint.SubtractAligned | deps/fmt/include/fmt/format-inl.h:406-415 | the exact difference unless the borrow gets stuck; then it is (2^32 - 1) times the weight behind the subtracted bigits too much |
| Bigints.Bigint.SubtractCommon | deps/fmt/include/fmt/format-inl.h:410-412 | the bigits up to the end of the other number, minus the borrow left, are exactly the difference; the rest is untouched |
| Bigints.Bigint.SettleBorrow | deps/fmt/include/fmt/format-inl.h:413-413 | the rest of the borrow is taken from one and the same bigit: it loses one, but from a zero it is taken twice and leaves 2^32 - 2 |
| Bigints.BorrowStuckExample | deps/fmt/include/fmt/format-inl.h:413-413 | 2^64 minus 1: operands the assertions allow, on which the borrow gets stuck |
| Bigints.BorrowFlows | deps/fmt/include/fmt/format-inl.h:406-415 | no borrow gets stuck if the number is not smaller and at most one bigit longer than the other |
| Bigints.Bigint.Multiply32 | deps/fmt/include/fmt/format-inl.h:417-426 | exact product with a 32-bit word, no overflow of the double bigit, at most one more bigit |
| Bigints.Bigint.Multiply64 | deps/fmt/include/fmt/format-inl.h:428-443 | exact product with a 64-bit word, no overflow of the carry, at most two more bigits |
| Bigints.Bigint.AssignUint64 | deps/fmt/include/fmt/format-inl.h:463-471 | denotes n |
| Bigints.Bigint.ShiftLeft | deps/fmt/include/fmt/format-inl.h:477-490 | multiplies the denoted integer by 2^shift |
| Bigints.Bigint.Compare | deps/fmt/include/fmt/format-inl.h:498-512 | for any two operands: more bigits win; with as many, the order of the denoted integers, and of the exponents when they are equal |
| Comparison.CompareMeans | deps/fmt/include/fmt/format-inl.h:498-512 | compared with a nonzero number the number of bigits does not matter, except for a zero with more bigits |
| Comparison.CompareDecides | deps/fmt/include/fmt/format-inl.h:498-512 | the order by value and exponent says x >= y exactly when that holds and it is not the case that x == y with a larger exponent |
| Comparison.LongZeroMisjudged | deps/fmt/include/fmt/format-inl.h:499-501 | a zero with more bigits than a nonzero number is always taken for the larger one |
| Comparison.ZeroAboveOne | deps/fmt/include/fmt/format-inl.h:499-501 | such a zero: the single bigit 0 with exponent 5, compared with 1 |
| Comparison.CompareExactly | deps/fmt/include/fmt/format-inl.h:498-512 | for all normal operands, zeros included: compare(x, y) >= 0 means x >= y if and only if they are not in one of the listed cases |
| Comparison.GuardExcludesMiss | deps/fmt/include/fmt/format-inl.h:498-512 | equality is not missed if x.exp_ <= y.exp_ or the lowest bigit of y is not zero |
| Comparison.CompareExactIff | deps/fmt/include/fmt/format-inl.h:498-512 | comparing with a nonzero y is right for every x that is no zero longer than y if and only if the lowest bigit of y is not zero |
| Bigints.Bigint.AddCompare | deps/fmt/include/fmt/format-inl.h:515-536 | for any three operands: the early exits decide by numbers of bigits, otherwise the result is the sign of lhs1 + lhs2 - rhs |
| Comparison.AddCompareExactly | deps/fmt/include/fmt/format-inl.h:515-536 | for all normal operands: the result is the sign of the difference if and only if no zero longer than rhs hides a sum that is not larger, and rhs is no such zero itself |
| Comparison.DoubleCompareExactly | deps/fmt/include/fmt/format-inl.h:515-536 | doubling one number, as digit generation does: right if and only if it is no zero longer than rhs |
| Bigints.Bigint.Square | deps/fmt/include/fmt/format-inl.h:558-585 | exact square; the column sums never overflow the accumulator and the last carry is zero |
| Bigits.TriangleStep | deps/fmt/include/fmt/format-inl.h:566-583 | adding column k of cross products to the columns below it gives the columns up to k |
| Bigits.ColumnBound | deps/fmt/include/fmt/format-inl.h:566-583 | bound of a column of cross products, on which the absence of overflow rests |
| Bigints.Bigint.AssignPow10 | deps/fmt/include/fmt/format-inl.h:539-556 | denotes 10^power by repeated squaring of 5 and one shift |
| Bigints.Bigint.Align | deps/fmt/include/fmt/format-inl.h:589-600 | same number with an exponent not above the other one |
| Bigints.Bigint.DivModAssign | deps/fmt/include/fmt/format-inl.h:602-613 | ends for a dividend at most one bigit longer than the divisor: dividend = quotient * divisor + rest with rest < divisor, but 0 and nothing changed where the first comparison misses equality; what a zero with more bigits is divided as |
| Bigints.DivisionExactly | deps/fmt/include/fmt/format-inl.h:602-613 | what a division returns is the quotient and remainder if and only if equality is not missed and the dividend is no zero longer than the divisor |
| Bigints.Bigint.FurtherSubtractions | deps/fmt/include/fmt/format-inl.h:609-612 | the loop: each round lowers the number by the divisor and counts, until it is below the divisor |
| Bigints.Bigint.DivModRounds | deps/fmt/include/fmt/format-inl.h:609-612 | for a nonzero dividend more than one bigit longer: after any number of rounds the loop goes on, so it never ends |
| Bigints.Bigint.Assign | deps/fmt/include/fmt/format-inl.h:455-461 | the bigits and the exponent of the other number |
| DecimalText.PropagateCarry | deps/fmt/include/fmt/format-inl.h:2325-2329 | turning overflowed digits into 0 and incrementing the left neighbour keeps the decimal value |
| DecimalText.RoundHalfEvenIsNearest | deps/fmt/include/fmt/format-inl.h:2317-2319 | round half even is a nearest integer, even in a tie |
| DecimalText.NearestEvenUnique | deps/fmt/include/fmt/format-inl.h:2317-2319 | and it is the only one, so the rounding below is fully determined |
| Dragon.Scale | deps/fmt/include/fmt/format-inl.h:2237-2271 | the three initialisations give the fraction f * 2^e * 10^-exp10, both sides scaled by the same power of two |
| Dragon.PowerNeverMissed | deps/fmt/include/fmt/format-inl.h:2251-2261 | for a negative exponent no comparison in the digit loop can miss equality |
| Dragon.EqualPowerOfTen | deps/fmt/include/fmt/format-inl.h:2239-2250 | f * 2^e equals a power of ten only for e below 32, f being a 64-bit word |
| Dragon.IntegerNeverMissed | deps/fmt/include/fmt/format-inl.h:2239-2250 | for an integer value no comparison in the digit loop can miss equality |
| Dragon.NextDigit | deps/fmt/include/fmt/format-inl.h:2312-2316 | one division yields a digit below ten and a rest below the denominator, with the comparison exact |
| Dragon.TenfoldFits | deps/fmt/include/fmt/format-inl.h:2311-2316 | a numerator below ten times the denominator is at most one bigit longer, so every division of digit generation ends |
| Dragon.LeadingDigits | deps/fmt/include/fmt/format-inl.h:2311-2315 | digits so far and rest always make up the value |
| Dragon.StoreLast | deps/fmt/include/fmt/format-inl.h:2316-2337 | the last digit rounded up or not, with the carry of 99..9 into 10..0 |
| Dragon.NoDigits | deps/fmt/include/fmt/format-inl.h:2305-2309 | with no digit wanted, 1 or 0 as the value rounds to ten times its unit |
| Dragon.FormatDragon | deps/fmt/include/fmt/format-inl.h:2225-2337 | the digits are value * 10^-exp10 rounded half to even at the requested length, for every significand and exponent; exp10 grows by one exactly when all digits carry |
| Grisu.GetRoundDirection | deps/fmt/include/fmt/format-inl.h:622-637 | down (up) exactly when rounding down (up) is right for every remainder within the error, without overflow |
| Grisu.DirectionFits | deps/fmt/include/fmt/format-inl.h:622-637 | a known direction is within half a divisor of every such remainder |
| Grisu.GenDigitsHandler.OnDigit | deps/fmt/include/fmt/format-inl.h:654-685 | a digit is appended; done means enough digits, rounded with their carry; an error is reported only when the margin leaves the digits or the rounding open |
| Grisu.GenDigitsHandler.RoundUp | deps/fmt/include/fmt/format-inl.h:672-683 | the digit string grows by one in its last place, fixed and exponent mode |
| Grisu.GenIntegral | deps/fmt/include/fmt/format-inl.h:726-775 | digits * 10^exp + rest = integral part in every iteration; divisors fit in 64 bits; the result is reported in units of the last digit |
| Grisu.ScaleFraction | deps/fmt/include/fmt/format-inl.h:778-781 | fraction and error times ten without overflow |
| Grisu.GenFractional | deps/fmt/include/fmt/format-inl.h:777-785 | digits, scaled value and fraction stay in balance, and the endless loop ends: it never asks for more digits |
| Grisu.AdjustPrecision | deps/fmt/include/fmt/format-inl.h:704-712 | precision relative to the first digit; too big exactly when the sum exceeds INT_MAX |
| Grisu.LeadingZeroOnly | deps/fmt/include/fmt/format-inl.h:715-723 | the early exit of fixed precision rounds the whole value to the unit above its first digit, or gives up exactly when twice the value is from 180 below to 198 above that unit |
| Grisu.EarlyErrorExactly | deps/fmt/include/fmt/format-inl.h:718-721 | its test, with ten times the error on a truncated value, is exactly that range; the margin of one unit leaves the result open only at the half itself |
| Grisu.NeedlessError | deps/fmt/include/fmt/format-inl.h:718-721 | a value for which the early exit gives up although 0 is right within the whole margin |
| Grisu.GenDigits | deps/fmt/include/fmt/format-inl.h:691-786 | the whole generator: when done, the wanted number of digits, within half a last-place unit of every value within the error; in the digit loops an error only when that margin leaves the result open, in the early exit exactly in its range |
| Grisu.NearestScaled | deps/fmt/include/fmt/format-inl.h:688-690 | for real numbers: a reported result is within half a unit of every real within the error of the value |
| ModularInverse.InverseDivides | deps/fmt/include/fmt/format-inl.h:951-971 | x * inv mod m is at most (m - 1) / d exactly when d divides x, and then it is the quotient |
| ModularInverse.Table32 | deps/fmt/include/fmt/format-inl.h:964-970 | every entry of the 32-bit table is an inverse of its power of five with the right bound |
| ModularInverse.Table64 | deps/fmt/include/fmt/format-inl.h:975-999 | every entry of the 64-bit table is |
| ModularInverse.DivisibleByPowerOf5_32 | deps/fmt/include/fmt/format-inl.h:962-972 | true exactly when 5^exp divides x |
| ModularInverse.DivisibleByPowerOf5_64 | deps/fmt/include/fmt/format-inl.h:973-1001 | true exactly when 5^exp divides x |
| ModularInverse.RemoveTrailingZeros32 | deps/fmt/include/fmt/format-inl.h:1928-1953 | n0 = n * 10^s, with no zero left unless s is at its cap, and below 10^8 in any case |
| ModularInverse.StripQuotient | deps/fmt/include/fmt/format-inl.h:1975-1988 | when 10^8 divides the number: zeros of the quotient, eight already counted |
| ModularInverse.StripRemainder | deps/fmt/include/fmt/format-inl.h:1990-2037 | otherwise: the at most seven zeros, taken from the low eight digits and put back together |
| ModularInverse.RemoveTrailingZeros64 | deps/fmt/include/fmt/format-inl.h:1956-2038 | n0 = n * 10^s with no zero left, for every n0 below 10^17 |
| ModularInverse.MostZeros | deps/fmt/include/fmt/format-inl.h:1927-1928 | no other decomposition removes more zeros |
| DecimalDigits.CountDigitsFallback | deps/fmt/include/fmt/format.h:936-949 | the loop counts the decimal digits |
| DecimalDigits.CountDigits64 | deps/fmt/include/fmt/format.h:959-974 | bit scan and tables count the decimal digits of every 64-bit number |
| DecimalDigits.CountDigits32 | deps/fmt/include/fmt/format.h:1010-1030 | bit scan and increment table count the decimal digits of every 32-bit number |
| DecimalDigits.DecimalMeans | deps/fmt/include/fmt/format.h:1101-1106 | the decimal text has that many digits, denotes n and has no leading zero |
| DecimalDigits.FormatDecimal | deps/fmt/include/fmt/format.h:1105-1126 | writes exactly the decimal text at the end of the first size characters and nothing else |
| DecimalDigits.ParseNonnegativeInt | deps/fmt/include/fmt/core.h:2275-2296 | the wrapping loop returns the value of the digits, or the error value beyond ten digits or INT_MAX; begin moves behind the digits |
| DecimalDigits.ParsePrinted | deps/fmt/include/fmt/core.h:2275-2296 | parsing the printed form of n gives n up to INT_MAX and the error value above |
| DecimalDigits.AcceptedSpellings | deps/fmt/include/fmt/core.h:2286-2295 | a value that fits and differs from the error value is returned exactly when it is spelled with at most ten characters: leading zeros count |
| FormatString.ReferenceParsed | deps/fmt/include/fmt/core.h:2343-2380 | nothing, a number without leading zeros or a name, before a closing brace or colon, is parsed as just that |
| FormatString.ParsedReference | deps/fmt/include/fmt/core.h:2343-2380 | what is accepted is one of these three, and the handler gets what it says |
| FormatString.FieldParsed | deps/fmt/include/fmt/core.h:2571-2609 | the calls a field makes: its reference, then the field or its specifications with the number the reference gave; the position behind the closing brace, or the first error |
| FormatString.AcceptedFields | deps/fmt/include/fmt/core.h:2588-2608 | nothing else is accepted except a doubled brace, which is reported as one |
| FormatString.NoReference | deps/fmt/include/fmt/core.h:2588-2600 | a brace at the end or in front of anything else is an invalid format string, before any call |
| FormatString.BadNumber | deps/fmt/include/fmt/core.h:2349-2361 | so is a number that is followed by neither a closing brace nor a colon, one behind a leading zero included |
| FormatString.BadName | deps/fmt/include/fmt/core.h:2366-2371 | a name followed by anything else is reported first and is an error then |
| FormatString.NameStarts | deps/fmt/include/fmt/core.h:2339-2341 | names start with an ASCII letter or an underscore |
| FormatString.ParseShort | deps/fmt/include/fmt/core.h:2619-2636 | the character loop computes the common scan |
| FormatString.Write | deps/fmt/include/fmt/core.h:2637-2652 | the second pass reports a stretch piece by piece, each with one of a doubled closing brace, or fails at a single one; nothing for an empty stretch |
| FormatString.ParseLong | deps/fmt/include/fmt/core.h:2653-2661 | the two-pass search alternates such stretches, up to the next opening brace or the end, with fields |
| FormatString.ParseFormatString | deps/fmt/include/fmt/core.h:2611-2662 | below 32 characters the scan, otherwise the stretches; for a handler that ignores empty text the scan in either case |
| FormatString.UnescapedIsScan | deps/fmt/include/fmt/core.h:2637-2652 | a stretch of the long algorithm is what the scan does up to the next opening brace |
| FormatString.LongIsScan | deps/fmt/include/fmt/core.h:2619-2661 | both algorithms give the same text, fields and outcome, for a handler that ignores empty text |
| FormatString.AgreeExactly | deps/fmt/include/fmt/core.h:2619-2661 | they agree on every string if and only if the handler ignores empty text |
| FormatString.ScanMeans | deps/fmt/include/fmt/core.h:2611-2662 | the scan from any point means what going character by character means; at an unmatched brace only the text before it is not yet reported |
| FormatString.ParseMeans | deps/fmt/include/fmt/core.h:2611-2662 | for every format string: literal text, fields and errors of the character-by-character meaning |
| FormatString.WrittenParsed | deps/fmt/include/fmt/core.h:2611-2662 | round trip: a string written from any texts and arguments, braces doubled, is parsed by both algorithms as exactly the calls it was written from |
| FormatString.SingleBrace | deps/fmt/include/fmt/core.h:2630-2631 | a single closing brace is reported as unmatched |
| OutputBuffer.PrefixGrows | deps/fmt/include/fmt/core.h:880-884 | letting through what the limit allows of each piece delivers the prefix of the whole |
| OutputBuffer.WrittenMore | deps/fmt/include/fmt/format.h:628-640 | every write adds exactly its element or its text to the total |
| OutputBuffer.IteratorBuffer.TryReserve | deps/fmt/include/fmt/core.h:841-847 | there is room for one more element afterwards, by a flush if need be |
| OutputBuffer.IteratorBuffer.PushBack | deps/fmt/include/fmt/core.h:849-852 | one element is added to what was pushed |
| OutputBuffer.IteratorBuffer.Append | deps/fmt/include/fmt/format.h:628-640 | the whole text is added to what was pushed, through any number of partial copies; the loop ends |
| OutputBuffer.IteratorBuffer.Count | deps/fmt/include/fmt/core.h:917-917 | the untruncated total |
| OutputBuffer.IteratorBuffer.Out | deps/fmt/include/fmt/core.h:913-916 | the output is exactly the first limit elements of everything pushed, in order |
| OutputBuffer.PointerBuffer.Append | deps/fmt/include/fmt/format.h:628-640 | the same for the buffer that starts in the caller's array; nothing is written behind the limit |
| OutputBuffer.PointerBuffer.PushBack | deps/fmt/include/fmt/core.h:849-852 | one element is added, nothing is written behind the limit |
| OutputBuffer.PointerBuffer.Out | deps/fmt/include/fmt/core.h:957-960 | the array holds the first limit elements pushed, and their number is returned |
| OutputBuffer.FormatToN | deps/fmt/include/fmt/core.h:3158-3166 | for every sequence of writes: the first n characters and the total size |
| IsoWeek.PhaseIsLastWeekday | deps/fmt/include/fmt/chrono.h:1014-1024 | the phase of a year is the weekday of its last day |
| IsoWeek.LongYears | deps/fmt/include/fmt/chrono.h:1014-1024 | 53 weeks exactly when the year starts or ends on a Thursday |
| IsoWeek.IsoWeekDate | deps/fmt/include/fmt/chrono.h:1025-1043 | for years from 0: year and week are those of the Thursday of the day's Monday-to-Sunday week |
| IsoWeek.YearUnique | deps/fmt/include/fmt/chrono.h:1029-1043 | that year is determined by the day |
| IsoWeek.NegativeYearsAreShort | deps/fmt/include/fmt/chrono.h:1014-1024 | with truncating remainders no negative year ever gets 53 weeks |
| IsoWeek.IsoWeekDateExactly | deps/fmt/include/fmt/chrono.h:1025-1043 | for all years: right if and only if the year is not negative, the week number is from 1 to 52, or the year that decides has 52 weeks |
| IsoWeek.NegativeYearsFail | deps/fmt/include/fmt/chrono.h:1014-1043 | a day for which it is wrong: the first of year -1 |
| Srp6.NumberOfEncoded | src/common/Cryptography/BigNumber.cpp:181-199 | decoding the little-endian bytes of a fitting number gives the number |
| Srp6.EncodedOfNumber | src/common/Cryptography/BigNumber.cpp:41-59 | encoding the number of some bytes gives the bytes |
| Srp6.EncodedByte | src/common/Cryptography/BigNumber.cpp:181-199 | little-endian: the byte at place k has the weight 256^k |
| Srp6.ServerPower | src/common/Cryptography/SRP6.cpp:79-79 | the server's secret is g^(b * (a + u * x)) for every modulus |
| Srp6.ClientPower | src/common/Cryptography/SRP6.h:63-63 | so is the client's, from the public value the server sends |
| Srp6.SecretsAgree | src/common/Cryptography/SRP6.cpp:68-79 | both sides compute the same secret for every modulus, generator and exponents |
| Srp6.Skipped | src/common/Cryptography/SRP6.cpp:39-41 | skipping p zero bytes before a nonzero one is stripping the leading zeros |
| Srp6.SplitThenSkip | src/common/Cryptography/SRP6.cpp:32-46 | splitting first and skipping half as many bytes in each half gives the halves of the stripped input |
| Srp6.SHA1Interleave | src/common/Cryptography/SRP6.cpp:30-60 | equals SHA_Interleave of RFC 2945 section 3.1 for every input of even length, all zeros included |
| Srp6.KeyBytes | src/common/Cryptography/SRP6.cpp:48-58 | place by place: the bytes of the two hashes, of the bytes at even and at odd places of the stripped input, alternate |
| Srp6.LoginExactly | src/common/Cryptography/SRP6.h:30-33 | a login check passes exactly when the stored bytes denote 7^x mod N, x being the hash of salt and hash of name, colon and password |
| Srp6.Server.constructor | src/common/Cryptography/SRP6.cpp:62-66 | the public bytes denote (g^b + 3v) mod N |
| Srp6.Server.VerifyChallengeResponse | src/common/Cryptography/SRP6.cpp:68-94 | the key if and only if A mod N is not zero and the client sent the hash of the one message with the exclusive or of two hashes, the hashed name, salt, A, B and the key at their places; usable once |
| Srp6.EvidenceHashes | src/common/Cryptography/SRP6.cpp:83-88 | the server's evidence is the hash of such a message |
| Srp6.EvidenceUnique | src/common/Cryptography/SRP6.cpp:83-88 | and every such message has that hash |
| Srp6.XorExactly | src/common/Cryptography/SRP6.cpp:86-86 | the exclusive or of two bytes is the byte whose binary digits are set where theirs differ |
| Srp6.XorTwice | src/common/Cryptography/SRP6.cpp:86-86 | applied twice it gives the byte back |
| Srp6.ServerKeyMeans | src/common/Cryptography/SRP6.cpp:78-81 | the key is the interleaved hash of (A * v^u)^b mod N, u being the hash of A followed by B |
| Srp6.KeysAgree | src/common/Cryptography/SRP6.cpp:78-81 | through the 32-byte encodings both sides have the same session key |
| Srp6.PowerNotZero | src/common/Cryptography/SRP6.cpp:75-76 | a power of a number with an inverse is never zero modulo n |
| Srp6.ClientPublicAccepted | src/common/Cryptography/SRP6.cpp:75-76 | so the value an honest client sends is never refused as zero |
| Srp6.Login | src/common/Cryptography/SRP6.cpp:62-94 | an honest client is always accepted and has the server's key |
| WorkerQueue.ProducerConsumerQueue.Push | src/common/Threading/PCQueue.h:21-27 | the value joins the end of the queue |
| WorkerQueue.ProducerConsumerQueue.Pop | src/common/Threading/PCQueue.h:41-55 | the front value unless empty or shut down |
| WorkerQueue.ProducerConsumerQueue.WaitAndPopStep | src/common/Threading/PCQueue.h:57-74 | under the lock: block, return nothing after shutdown, or take the front value |
| WorkerQueue.ProducerConsumerQueue.Cancel | src/common/Threading/PCQueue.h:76-92 | everything queued is deleted in order and the queue shuts down |
| WorkerQueue.StepKeepsOrder | src/common/Threading/PCQueue.h:21-92 | every step keeps: what left the queue followed by what is in it are the pushes in order |
| WorkerQueue.StepKeepsAccounts | src/server/database/Database/DatabaseWorker.cpp:20-38 | every step keeps each operation's account of held, finished, discarded and abandoned, and of calls |
| WorkerQueue.StepKeepsWakeUps | src/common/Threading/PCQueue.h:21-92 | every step keeps: a blocked worker means no more queued operations than woken workers, and none is blocked after shutdown |
| WorkerQueue.EveryRunIsSafe | src/server/database/Database/DatabaseWorker.cpp:13-38 | all of this in every state of every interleaving of pushes, workers, spurious wake-ups and cancelations |
| WorkerQueue.ExactlyOnePlace | src/server/database/Database/DatabaseWorker.cpp:20-38 | each pushed operation is queued, held by a worker, finished, deleted by Cancel or abandoned: exactly one of these; nothing runs twice |
| WorkerQueue.HeldByOneWorker | src/server/database/Database/DatabaseWorker.cpp:27-36 | no two workers hold the same operation |
| WorkerQueue.CalledOnceBeforeDeletion | src/server/database/Database/DatabaseWorker.cpp:33-34 | an operation is called at most once and never after its deletion |
| WorkerQueue.DeletedOnce | src/server/database/Database/DatabaseWorker.cpp:36-36 | a worker deletes an operation once, after its call |
| WorkerQueue.DiscardedUnused | src/common/Threading/PCQueue.h:80-87 | Cancel deletes only operations nobody called or deleted |
| WorkerQueue.WorkIsTaken | src/common/Threading/PCQueue.h:61-73 | with work queued and a worker blocked, some woken worker can take the front operation |
| WorkerQueue.ShutdownStep | src/common/Threading/PCQueue.h:61-69 | after shutdown no worker blocks or takes work, and each of its steps brings a worker closer to its end |
| WorkerQueue.OwnStepRanksLower | src/server/database/Database/DatabaseWorker.cpp:20-38 | after shutdown each kind of step of a worker leads to a phase closer to its end |
| WorkerQueue.NeverStuckAfterShutdown | src/server/database/Database/DatabaseWorker.cpp:25-37 | a worker that has not ended always has a step it can take |
| WorkerQueue.CancelledCallsNothing | src/server/database/Database/DatabaseWorker.cpp:30-31 | once its cancelation flag is set, a worker not yet past the check calls nothing more |
| WorkerQueue.WorkersEnd | src/server/database/Database/DatabaseWorker.cpp:13-18 | after shutdown every worker ends within five of its own steps, so the join returns |
| WorkerProgress.OthersUntouched | src/server/database/Database/DatabaseWorker.cpp:20-38 | a step changes one worker only; Cancel only wakes the blocked ones |
| WorkerProgress.FlagsExactly | src/server/database/Database/DatabaseWorker.cpp:5-18 | in every run: as many workers and operations as were started and pushed; a flag is set, or the queue shut down, exactly by those who do it |
| WorkerProgress.AbandonedByCancelled | src/server/database/Database/DatabaseWorker.cpp:30-31 | an operation is abandoned only by a worker whose flag is set |
| WorkerProgress.EndsAreJustified | src/server/database/Database/DatabaseWorker.cpp:25-31 | in every run: a worker ends only if its flag was set or the queue was cancelled, and gets nothing only after the latter |
| WorkerProgress.UndisturbedGoesOn | src/server/database/Database/DatabaseWorker.cpp:25-37 | when nobody cancels: nobody ends, and nothing is abandoned or discarded |
| WorkerProgress.AllServed | src/server/database/Database/DatabaseWorker.cpp:25-37 | and when all workers are blocked, the queue is empty and every operation was called once and deleted once |
| WorkerProgress.TakesFront | src/common/Threading/PCQueue.h:59-73 | a worker with the lock takes the front operation unless the queue has shut down |
| WorkerProgress.NeverStuck | src/server/database/Database/DatabaseWorker.cpp:25-37 | a worker that has not ended has a step it can take, or is blocked and can be woken |
| WorkerProgress.ServedInThree | src/server/database/Database/DatabaseWorker.cpp:30-37 | whatever the others do, three own steps after taking an operation a worker whose flag is not set has called it once, deleted it, and waits for the next |
| WorkerProgress.ServesAtOnce | src/server/database/Database/DatabaseWorker.cpp:30-37 | and it can take these steps |
| WorkerProgress.DiscardedForGood | src/common/Threading/PCQueue.h:80-87 | what is queued at a cancelation is deleted once and never called, whatever follows |
| Transactions.Transaction.Append | src/server/database/Database/Transaction.cpp:19-25 | the text joins the list |
| Transactions.Transaction.AppendPreparedStatement | src/server/database/Database/Transaction.cpp:27-33 | the statement joins the list and is owned by it |
| Transactions.QueriesAreListed | src/server/database/Database/Transaction.cpp:19-81 | whatever its uses, a transaction holds exactly the elements appended, text included and in order: all of them, or those since the first clean-up |
| Transactions.Transaction.Cleanup | src/server/database/Database/Transaction.cpp:35-81 | the first call deletes the listed statements in order and empties the list; later calls do nothing |
| Transactions.Transaction.Destroy | src/server/database/Database/Transaction.h:23-23 | the destructor cleans up |
| Transactions.FreedAreEarly | src/server/database/Database/Transaction.cpp:35-81 | the deleted statements are those appended before the first clean-up, in order and as often; all others leak |
| Transactions.FreedExactlyOnce | src/server/database/Database/Transaction.cpp:35-81 | after the destructor every appended statement has been deleted once if and only if those appended before the first clean-up are distinct and every later one is among them |
| Transactions.NewFreedExactlyOnce | src/server/database/Database/Transaction.cpp:35-81 | when no statement is appended twice: each is deleted once if and only if none is appended after a clean-up |
| Transactions.LeakExample | src/server/database/Database/Transaction.cpp:35-81 | a statement appended after a clean-up is never deleted |
| Transactions.DoubleAppendExample | src/server/database/Database/Transaction.cpp:35-81 | a statement appended twice is deleted twice |
| Transactions.ListedNotFreed | src/server/database/Database/Transaction.cpp:35-81 | when no statement is appended twice, one that can still be executed has not been deleted |
| Transactions.Connection.Execute | src/server/database/Database/MySQLConnection.cpp:190-223 | executed again after every loss of the connection, which ends the open transaction; then in effect at once, pending, or failed with whatever error number |
| Transactions.AnswersRead | src/server/database/Database/MySQLConnection.cpp:200-220 | success and failure end a statement, a loss has it executed again |
| Transactions.Connection.ExecuteTransaction | src/server/database/Database/MySQLConnection.cpp:445-522 | -1 for an empty list; otherwise code and effect of the attempt below, the code read before the rollback |
| Transactions.Connection.RunQueries | src/server/database/Database/MySQLConnection.cpp:454-517 | the loop over the queries: what took effect after a loss and what is pending make up the attempt |
| Transactions.AttemptExactly | src/server/database/Database/MySQLConnection.cpp:445-522 | the code is the first error number or 0; without a loss all queries or none take effect, otherwise those from the loss up to the failure |
| Transactions.AtomicExactly | src/server/database/Database/MySQLConnection.cpp:445-522 | all or nothing takes effect if and only if no connection is lost, or only before the first query and none fails, or before the one that fails |
| Transactions.SilentExactly | src/server/database/Database/MySQLConnection.cpp:475-484 | an attempt returns 0 without having applied the queries if and only if its first failure carries error number 0, or none fails and the connection is lost after the first query |
| Transactions.LossExample | src/server/database/Database/MySQLConnection.cpp:675-716 | a connection lost before the second of two queries: the first is gone, the second stays, and the code is 0 |
| Transactions.TransactionTask.Execute | src/server/database/Database/Transaction.cpp:83-116 | answer and effect of the attempts, in order, false and nothing for an empty transaction; cleaned up exactly when the answer is false |
| Transactions.TransactionTask.Retry | src/server/database/Database/Transaction.cpp:99-106 | retries on any error while the clock allows, until one returns 0 |
| Transactions.CommitsExactly | src/server/database/Database/Transaction.cpp:83-116 | a task answers true if and only if its first attempt returns 0, or it returns 1213 and a retry within one minute returns 0 |
| Transactions.TrueWithoutCommit | src/server/database/Database/Transaction.cpp:83-116 | unless the connection is lost, a task applies its queries once or not at all; it answers true without a commit if and only if the attempt that ends it hides its failure, and never false after a commit |
| Transactions.HonestCommits | src/server/database/Database/Transaction.cpp:83-116 | when moreover no failure carries error number 0, a task and a direct commit answer true exactly when the queries took effect, once and in order |
| Transactions.BuildAndExecute | src/server/database/Database/Transaction.cpp:19-116 | from new transaction to destructor: true puts exactly what was listed into the database, false nothing; the statements appended before the first clean-up are deleted |
| Transactions.TransactionWithResultTask.Execute | src/server/database/Database/Transaction.cpp:129-169 | the same, and the promise is set once, with the answer |
| Transactions.DirectCommitTransaction | src/server/database/Database/DatabaseWorkerPool.cpp:291-319 | effect of the attempts, connection unlocked, clean-up unless the first attempt returns 0 |
| Transactions.CommitsDirectlyExactly | src/server/database/Database/DatabaseWorkerPool.cpp:297-314 | reports success if and only if the first attempt does, or it returns 1213 and one of five retries does |
| ConnectionPool.AllTried | src/server/database/Database/DatabaseWorkerPool.cpp:495-506 | among any 256 attempts the wrapping counter reaches every connection of a pool of at most 255 |
| ConnectionPool.NextTried | src/server/database/Database/DatabaseWorkerPool.cpp:501-503 | consecutive attempts try consecutive connections, until the counter wraps to the first |
| ConnectionPool.GetFreeConnection | src/server/database/Database/DatabaseWorkerPool.cpp:481-509 | the first tried connection nobody else holds; the search ends at the latest at any attempt that finds one free |
| ConnectionPool.FreeConnectionFound | src/server/database/Database/DatabaseWorkerPool.cpp:495-506 | if some connection stays free from some attempt on, one of the next 256 attempts succeeds |
| QueryChain.QueryCallback.WithChainingCallback | src/server/database/Database/QueryCallback.cpp:149-154 | the callback joins the end of the chain |
| QueryChain.QueryCallback.WithChainingPreparedCallback | src/server/database/Database/QueryCallback.cpp:156-161 | the callback joins the end of the chain |
| QueryChain.QueryCallback.SetNextQuery | src/server/database/Database/QueryCallback.cpp:163-166 | the next query, of the chain's kind, is the one waited for |
| QueryChain.QueryCallback.CheckStateAndReturnCompletion | src/server/database/Database/QueryCallback.cpp:171-186 | the callback is popped; complete exactly when no query was set |
| QueryChain.QueryCallback.InvokeIfReady | src/server/database/Database/QueryCallback.cpp:168-210 | only a ready result is delivered, to the first callback, which is then gone; complete exactly when it set no next query |
| QueryChain.ReadyDelivered | src/server/database/Database/QueryCallback.cpp:168-210 | a poll delivers the result waited for, of either kind, exactly when it is ready |
| QueryChain.CanBePolled | src/server/database/Database/QueryCallback.cpp:168-210 | a chain that is not complete can be polled |
| QueryChain.StepStaysInOrder | src/server/database/Database/QueryCallback.cpp:168-210 | every completion and every poll keeps the order of callbacks and queries |
| QueryChain.ChainsRunInOrder | src/server/database/Database/QueryCallback.cpp:149-210 | in every run: callbacks run in insertion order and once, queries are consumed in order and once, only when ready; complete exactly when no query is left, and always when no callback is |
| QueryChain.OneKindIsSafe | src/server/database/Database/QueryCallback.cpp:176-184 | for a chain of one kind the assertions hold exactly when the last callback sets no next query |
| QueryChain.AsyncCallbackProcessor.AddCallback | src/common/Utilities/AsyncCallbackProcessor.h:16-20 | the entry joins the end |
| QueryChain.AsyncCallbackProcessor.RemoveFinished | src/common/Utilities/AsyncCallbackProcessor.h:27-31 | each entry is polled once in order; the unfinished ones remain in order |
| QueryChain.AsyncCallbackProcessor.ProcessReadyCallbacks | src/common/Utilities/AsyncCallbackProcessor.h:22-34 | afterwards: the entries added meanwhile, then the unfinished old ones |
| QueryChain.NothingLost | src/common/Utilities/AsyncCallbackProcessor.h:22-34 | finished and unfinished entries together are the old ones, none lost or doubled |
| ResultLoader.SlotInBounds | src/server/database/Database/QueryResult.cpp:272-292 | every slot lies inside the buffer |
| ResultLoader.SlotsDisjoint | src/server/database/Database/QueryResult.cpp:309-346 | the slots of two values never overlap |
| ResultLoader.NextSlot | src/server/database/Database/QueryResult.cpp:337-337 | a column's slot moves on by a row's size after a value and stays after a null |
| ResultLoader.IndexExact | src/server/database/Database/QueryResult.cpp:335-335 | the wrapping 32-bit index is row-major while the fields can be counted in 32 bits |
| ResultLoader.IndexInBoundsExactly | src/server/database/Database/QueryResult.cpp:307-335 | every cell's wrapped index lies inside the fields, whose number wraps too, if and only if the fields can be counted in 32 bits |
| ResultLoader.RowMajorInjective | src/server/database/Database/QueryResult.cpp:335-335 | different cells have different fields |
| ResultLoader.PreparedResultSet.BindColumns | src/server/database/Database/QueryResult.cpp:287-292 | each column's pointer starts at its offset in the row |
| ResultLoader.PreparedResultSet.FetchRow | src/server/database/Database/QueryResult.cpp:366-373 | fetching a row stores its values, cut off at the column width, and disturbs none of the rows before |
| ResultLoader.PreparedResultSet.EndText | src/server/database/Database/QueryResult.cpp:328-329 | the terminating zero lies in the cell's own slot, behind the value |
| ResultLoader.PreparedResultSet.LoadCell | src/server/database/Database/QueryResult.cpp:311-343 | the field refers to the value, and the pointer moves on only after a value |
| ResultLoader.PreparedResultSet.LoadRow | src/server/database/Database/QueryResult.cpp:311-343 | the row is complete and all earlier rows still are |
| ResultLoader.PreparedResultSet.constructor | src/server/database/Database/QueryResult.cpp:230-351 | after the loop the field of every fetched cell refers to its slot, which holds its value; the fields of rows never fetched are unset |
| ResultLoader.ReadsExactly | src/server/database/Database/QueryResult.cpp:311-343 | a field reads what was fetched if and only if the value fits its column or the bytes behind its slot happen to be the missing ones |
| ResultLoader.TextFitsExactly | src/server/database/Database/QueryResult.cpp:37-43 | text columns hold every value up to the longest with its zero byte if and only if both can be counted in 32 bits |
| ResultLoader.FixedSizesFit | src/server/database/Database/QueryResult.cpp:17-31 | the sizes of integer and floating point columns are those of their 8, 16, 32 and 64 bits |
| ResultLoader.DecimalFitsExactly | src/server/database/Database/QueryResult.cpp:44-46 | decimals with sign and point are sure to fit if and only if they have at most 62 digits |
| ResultLoader.UnlistedTypeMisread | src/server/database/Database/QueryResult.cpp:47-52 | a column of a type that is not listed has no room, so no value but the empty one is read |
| ResultLoader.PreparedResultSet.NextRow | src/server/database/Database/QueryResult.cpp:358-364 | moves on and tells whether there is a row |
| ResultLoader.PreparedResultSet.At | src/server/database/Database/QueryResult.cpp:375-386 | the current row's field of a column: it reads exactly the fetched bytes if they fit, text with a zero byte behind; a null has no value and the reported length; a row never fetched an unset field |

## Left out

- Bigints.Bigint.AssignPow10: power below 2^30, because the bit mask of the code is an `int` that doubles past it; `int` overflow of `exp_` and of bigit counts is not modelled.
- Bigints.Bigint.DivModAssign: executed where it ends, as a method has to end; the quotient is unbounded, while the code counts it in an `int`, and digit generation only meets quotients below ten.
- Bigints.Bigint.Square: fewer than 2^30 bigits, so that indices and the accumulator cannot overflow.
- Dragon.FormatDragon: exponents of ten between -2^30 and 2^30, the buffer is resized beforehand, and the shortest-output branch, which only compile-time evaluation reaches, is not modelled.
- Grisu.GenDigits: an error of one unit of the value's last bit, the only one its callers pass.
- DecimalDigits.FormatDecimal: the table of digit pairs is given by the digits it stands for, not by its 200 characters.
- FormatString.ParseFormatString: for specification parsers that return a position inside the string.
- FormatString.ParseMeans: for handlers to which text may come in one piece or several, and of which empty text changes nothing.
- OutputBuffer.PointerBuffer.Out: the move constructor and the destructor's flush are not modelled.
- Transactions.Connection.Execute: a reply lost after the server executed the statement, reconnecting that fails for good, and error numbers that end the process are not modelled. START TRANSACTION, COMMIT and ROLLBACK succeed.
- Transactions.TransactionTask.Execute: the retry clock is a list of readings whose last exceeds one minute; the lock that serialises retrying tasks is not modelled.
- Transactions.TrueWithoutCommit: for connections that are not lost; with losses the effect of a task is that of its attempts one after the other.
- Transactions.DirectCommitTransaction: the connection is given locked, as the search for a free one leaves it.
- ConnectionPool.GetFreeConnection: executed where it ends, namely if some attempt finds its connection free; without one the search goes on forever.
- QueryChain.QueryCallback.InvokeIfReady: a callback's effect is a next query and appended callbacks of any number; callbacks that poll or move the chain itself are not modelled.
- QueryChain.AsyncCallbackProcessor.ProcessReadyCallbacks: entries may add others while they are polled, but not start another round.
- ResultLoader.PreparedResultSet.constructor: row size and number of fields below 2^32; with more fields some index lies behind the last field (`ResultLoader.IndexInBoundsExactly`). Failures to store or bind the result are not modelled.
- WorkerQueue.WorkersEnd: workers end if they keep being scheduled and their operations return; nothing is claimed about a pool opened again after its queue was cancelled, since the shutdown flag is never reset.
- Concurrent writers to the database other than the modelled connection.
- Dragonbox (`to_decimal`, power caches): its correctness rests on large tables and published bounds.
- `utf8_decode`, display width, locales, printf-style and range formatting, and format-specification parsing inside a field.
- OpenSSL and the MySQL client library: replaced by integers, an arbitrary hash, an error oracle and a fetch oracle.
- Sockets, packet handling, configuration, timers, logging, tokenising and string conversion: plumbing or easy members.
