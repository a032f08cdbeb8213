# Verified models of the server's algorithms

The server is a small WebSocket and HTTP server on top of vendored code. This project models the parts of it that
compute something hard and proves what they promise:

- exact conversion between doubles and decimals (double-conversion): Grisu3 digit generation, the bignum class, the
  exact shortest digits, fixed-point digits, and reading decimals back;
- libuv's pointer heap, circular lists, timers, thread pool, Punycode encoder and red-black tree;
- the two incremental parsers: WebSocket frames and HTTP bodies;
- the JSON printer and parser, with the whole grammar of the texts it accepts.

Code that works in place is modelled in place: the bignums, 128-bit numbers, tree and heap nodes, list links, parsers
and digit buffers are objects and arrays that methods change, and every such method is proved against a specification
on values. The lemmas are about those specifications. The timer loop runs on the pointer heap and the circular list
themselves, not on a set and a sequence. The thread pool is a state machine whose steps are the critical sections of
`threadpool.c`; two of them, a worker's and the one in `post`, are also given as methods on the shared queues.

`dafny verify dfyconfig.toml` checks everything.

## Assumptions

Two results rest on floating-point code that is not modelled. What is assumed of it is written out as a predicate:

- `BignumDtoaStart.EstimateContract`, the documented contract of `EstimatePower` (bignum-dtoa.cc:385-413): the
  estimate is the decimal exponent of the upper boundary or one too low. `ShortestDtoa` and `WriteAndRead` require it.
- `Strtod.Reliable`, the documented contract of `DoubleStrtod` and `DiyFpStrtod` (strtod.cc:190-386): an answer marked
  as certain is right, and otherwise the right double is the guess or its successor. The functions from `ComputeGuess`
  to `Strtod`, and `WriteAndRead`, require it.

Everything else is proved without assumptions. Preconditions that only bound sizes (the capacity of a bignum, a
buffer's length, the range of a double's exponent) are those the code asserts or documents.

## Where the code falls short

For these promises there is a proof that the code does not meet them, and exactly when it does:

- JSON keys are printed without escaping, and bytes from 128 on in strings as escapes of negative numbers. A value is
  read back as it was printed if and only if every key in it, at any depth, is plain and every string ASCII
  (`JsonKeys.ExactlyTheseSurvive`); `Json.KeySurvives` and `Json.StringSurvives` say the same of one key and one
  string, and `Json.QuoteInKeyFails` gives an object that is not read back.
- JSON escapes may have any letters as hexadecimal digits, and the low half of a surrogate pair may stand alone
  (`JsonTexts.HalfPair`); other bytes in strings need not be UTF-8; integers of more than 32 bits are cut
  (`JsonTexts.CutTo32`). Apart from these, exactly the texts of RFC 8259 are accepted, with anything behind them:
  `JsonTexts.AcceptsExactly`.
- The test after the JSON value (leptjson.cpp:339) is the wrong way round: text behind a value is accepted exactly if
  the value is no integer that the text goes on with (`Json.TrailingTextIsIgnored`).
- Control frames inside a fragmented message are taken for a part of it, against section 5.4 of RFC 6455:
  `WebSocketFraming.ControlFramesDelivered` says that this is the only failure, `WebSocketFraming.PingInsideMessage`
  shows what is delivered instead.
- When the carriage return after a chunk's data is missing, the body bytes of the same call are never reported
  (`HttpParser.LostByte`). The outcome depends on a cut exactly if the cut is in or right behind reported data of a
  chunk and the next slice has something else behind the rest of that data (`HttpParser.CutMattersExactly`).
- An HTTP/1.0 message with both "close" and "keep-alive" keeps the connection, against section 6.3 of RFC 7230; no
  other message is misjudged: `HttpSteps.ShouldKeepAlive`, `HttpConnection.ConnectionPersists`.
- The empty line behind the last chunk may be a line feed alone: `HttpGrammar.MessagesExactly`.
- Responses whose status forbids a body are still read with one if the header announces one, against section 3.3.3 of
  RFC 7230: `HttpSteps.DelimiterAgrees`.
- `DivideModuloIntBignum` asserts equal lengths after its first loop (bignum.cc:531). With n bigits in the divisor
  they are equal for every dividend if the divisor is at most P(n) - P(n-1), where P(n) is 2^(28n), and otherwise not
  for the dividend P(n): `Bignums.LengthsAgree` and `Bignums.LengthsDiffer`. The quotient and remainder are right all
  the same: `Bignums.Bignum.DivideModuloIntBignum`.
- The digit generators promise the closest of the shortest decimals, and compare candidates of one position. That is
  enough with two digits or more; with one digit 0.9 may be closer than 1. `ClosestDecimal.ClosestOfItsLength` and
  `Grisu.ClosestOfItsLength` say exactly when, `ClosestDecimal.NotAlwaysClosest` gives a number, and for doubles it
  never happens (`ClosestDecimal.NeverSkewed`).

## Model

| member | source | states |
|---|---|---|
| Grisu.BiggestPowerTen | third-party/leptjson/third-party/double-conversion/fast-dtoa.cc:236-256 | The guess from the bit count finds the power of ten with 10^(n-1) <= number < 10^n. |
| Grisu.RoundWeed | third-party/leptjson/third-party/double-conversion/fast-dtoa.cc:61-166 | Only the last digit changes, it never drops below 0, no 64-bit operation wraps, and it succeeds if and only if some last digit is nearest to w from both ends of its error and safely inside; the final number is then that one. |
| Grisu.InsideHolds | third-party/leptjson/third-party/double-conversion/fast-dtoa.cc:160-165 | Weeded digits are inside the rounding interval for every pair of real boundaries within one unit of low and high. |
| Grisu.TooFewDigits | third-party/leptjson/third-party/double-conversion/fast-dtoa.cc:344-369 | When the generator stops, no decimal with fewer digits, at any position, lies in the unsafe interval. |
| Grisu.ClosestHolds | third-party/leptjson/third-party/double-conversion/fast-dtoa.cc:110-158 | Weeded digits are strictly closer to every real w within one unit than any other number of the same position in the unsafe interval. |
| Grisu.WeededIsCertain | third-party/leptjson/third-party/double-conversion/fast-dtoa.cc:110-165 | The test of RoundWeed holds exactly for a number that keeps its distance from both ends and is closer than every other candidate to every real within one unit of w. |
| Grisu.StoppedThere | third-party/leptjson/third-party/double-conversion/fast-dtoa.cc:344-391 | Where the digits stop, a multiple of that power of ten is a candidate, and none of the next higher power. |
| Grisu.OneShortestPosition | third-party/leptjson/third-party/double-conversion/fast-dtoa.cc:344-391 | There is only one such position. |
| Grisu.DigitGen | third-party/leptjson/third-party/double-conversion/fast-dtoa.cc:300-396 | On success the digits are certainly inside the interval, nothing shorter is, at any position, and no candidate of the same position is as close, whatever reals low, w and high stand for. It fails exactly if none of the shortest candidates is certain: each is within a unit of high or three units of low, or is not the closest for some number that w may stand for. Both loops terminate and no word overflows. |
| Grisu.OnlyThisPosition | third-party/leptjson/third-party/double-conversion/fast-dtoa.cc:266-276 | With two digits or more, every candidate with as many digits stands at the same position. |
| Grisu.ClosestOfItsLength | third-party/leptjson/third-party/double-conversion/fast-dtoa.cc:266-276 | The digits are strictly the closest decimal of their length, at whatever position, if and only if 0.9 at the first digit is not a candidate that w may be closer to; with two digits or more they always are. |
| Bignums.Bignum.AssignUInt64 | third-party/leptjson/third-party/double-conversion/bignum.cc:65-72 | The value is the 64-bit number, in at most three bigits without leading zeros. |
| Bignums.Bignum.AssignDecimalString | third-party/leptjson/third-party/double-conversion/bignum.cc:97-115 | The value is the number the digits denote, read in pieces of nineteen digits. |
| Bignums.Bignum.ReadUInt64 | third-party/leptjson/third-party/double-conversion/bignum.cc:84-94 | The digits from a position on, as a number below 10^count that fits a word. |
| Bignums.Bignum.AddUInt64 | third-party/leptjson/third-party/double-conversion/bignum.cc:156-163 | The sum with a word, exactly. |
| Bignums.Bignum.AddBignum | third-party/leptjson/third-party/double-conversion/bignum.cc:166-209 | The exact sum for any exponents; the other number is unchanged. |
| Bignums.Bignum.SubtractBignum | third-party/leptjson/third-party/double-conversion/bignum.cc:212-236 | The exact difference of numbers with any exponents, without leading zeros. |
| Bignums.Bignum.ShiftLeft | third-party/leptjson/third-party/double-conversion/bignum.cc:239-247 | The value times 2^n; whole bigits go to the exponent. |
| Bignums.Bignum.MultiplyByUInt32 | third-party/leptjson/third-party/double-conversion/bignum.cc:250-276 | The exact product with a 32-bit number; the 64-bit carry does not wrap. |
| Bignums.Bignum.MultiplyByUInt64 | third-party/leptjson/third-party/double-conversion/bignum.cc:279-308 | The exact product with any 64-bit number, 2^64-1 included; the carry does not wrap. |
| Bignums.Bignum.MultiplyByPowerOfTen | third-party/leptjson/third-party/double-conversion/bignum.cc:311-352 | The value times 10^n: powers of five in pieces of 27, 13 and fewer, then a shift. |
| Bignums.Bignum.Square | third-party/leptjson/third-party/double-conversion/bignum.cc:355-424 | The exact square, computed in place over the number's own copy by columns; the accumulator does not wrap. |
| BigitSquare.ColumnsValue | third-party/leptjson/third-party/double-conversion/bignum.cc:375-418 | The sum of the columns, each weighted with its power of the base, is the square. |
| Bignums.Bignum.AssignPowerUInt16 | third-party/leptjson/third-party/double-conversion/bignum.cc:427-498 | base^power for every base and power with room: stripped twos, the word-sized start with its delayed multiplication, and squaring by the bits that are left. |
| Bignums.Bignum.Clamp | third-party/leptjson/third-party/double-conversion/bignum.cc:715-723 | Leading zeros go, the value stays. |
| Bignums.Bignum.Align | third-party/leptjson/third-party/double-conversion/bignum.cc:726-748 | Hidden zeros become explicit down to the other exponent; value and length stay. |
| Bignums.Bignum.SubtractTimes | third-party/leptjson/third-party/double-conversion/bignum.cc:767-794 | Subtracts factor times the other number, with the borrow carried through both loops. |
| Bignums.Bignum.DivideModuloIntBignum | third-party/leptjson/third-party/double-conversion/bignum.cc:502-565 | The exact quotient below 2^16 and the exact remainder, through the first loop, the estimate, the early return and the correction, whatever the lengths after the first loop. |
| Bignums.LengthsAgree | third-party/leptjson/third-party/double-conversion/bignum.cc:517-531 | The asserted lengths agree for every dividend, if the divisor of n bigits is at most P(n) - P(n-1). |
| Bignums.LengthsDiffer | third-party/leptjson/third-party/double-conversion/bignum.cc:517-531 | For every larger divisor the dividend P(n) ends up shorter than it. |
| Bignums.Compare | third-party/leptjson/third-party/double-conversion/bignum.cc:644-667 | The sign of a - b, for numbers with any hidden zeros. |
| Bignums.PlusCompare | third-party/leptjson/third-party/double-conversion/bignum.cc:670-712 | The sign of a + b - c without the sum, through every early exit. |
| Bignums.CompareColumns | third-party/leptjson/third-party/double-conversion/bignum.cc:690-712 | The column loop alone: a difference of more than one bigit decides, and what is left at the end is compared. |
| BignumDtoa.NoShorterDecimal | third-party/leptjson/third-party/double-conversion/bignum-dtoa.cc:172-184 | If no candidate fits before the last position, no decimal with fewer digits is in the interval, at any position. |
| BignumDtoa.NineNotRounded | third-party/leptjson/third-party/double-conversion/bignum-dtoa.cc:238-272 | The last digit is never 9 when it is rounded up. |
| BignumDtoa.DecisionIsClosest | third-party/leptjson/third-party/double-conversion/bignum-dtoa.cc:232-273 | The decision between rounding down and up gives the candidate closest to v, halves by the even digit. |
| BignumDtoa.RoundUpNeeded | third-party/leptjson/third-party/double-conversion/bignum-dtoa.cc:232-272 | The comparison of twice the remainder with the denominator takes that decision. |
| BignumDtoa.GenerateShortestDigits | third-party/leptjson/third-party/double-conversion/bignum-dtoa.cc:185-274 | The digits are inside the interval, which is closed exactly for even significands, nothing shorter is, at any position, and no candidate of the same position is closer; the loop ends within the buffer, also when delta_plus is delta_minus. |
| ClosestDecimal.OnePosition | third-party/leptjson/third-party/double-conversion/bignum-dtoa.cc:172-184 | With two digits or more, every decimal of that length in the interval stands at the same position. |
| ClosestDecimal.ClosestOfItsLength | third-party/leptjson/third-party/double-conversion/bignum-dtoa.cc:172-184 | No decimal of that length in the interval, at any position, is closer, if and only if 0.9 is not both inside and closer than 1. |
| ClosestDecimal.NotAlwaysClosest | third-party/leptjson/third-party/double-conversion/bignum-dtoa.cc:172-184 | 0.94 between 0.84 and 1.04 is written as 1, although 0.9 is closer. |
| ClosestDecimal.NeverSkewed | third-party/leptjson/third-party/double-conversion/bignum-dtoa.cc:568-598 | No double, normal or denormal, is such a number. |
| BignumDtoaStart.StartPositiveExponent | third-party/leptjson/third-party/double-conversion/bignum-dtoa.cc:417-446 | Numerator, denominator and deltas for e >= 0, exactly. |
| BignumDtoaStart.StartNegativeExponentPositivePower | third-party/leptjson/third-party/double-conversion/bignum-dtoa.cc:450-480 | The same for e < 0 and a nonnegative estimate. |
| BignumDtoaStart.StartNegativeExponentNegativePower | third-party/leptjson/third-party/double-conversion/bignum-dtoa.cc:484-527 | The same for e < 0 and a negative estimate. |
| BignumDtoaStart.InitialScaledStartValues | third-party/leptjson/third-party/double-conversion/bignum-dtoa.cc:568-598 | All three variants, and the doubled lower boundary, stand for f * 2^e / 10^estimate with its two half gaps. |
| BignumDtoaStart.FixupMultiply10 | third-party/leptjson/third-party/double-conversion/bignum-dtoa.cc:612-639 | From an estimate that is right or one too low, the upper boundary ends between 1 and 10 and the decimal point fits. |
| BignumDtoaStart.ShortestDtoa | third-party/leptjson/third-party/double-conversion/bignum-dtoa.cc:89-169 | From significand, exponent and estimate to the shortest decimal of that number, with none of the same position closer, for the whole range of doubles. |
| Ieee.NextIsOneUlpUp | third-party/leptjson/third-party/double-conversion/ieee.h:91-102 | The next bit pattern is exactly one unit up, over denormals, the first normal, binades and infinity. |
| Ieee.FormatIsIeee754 | third-party/leptjson/third-party/double-conversion/ieee.h:105-131 | What a bit pattern stands for, by the format of IEEE 754. |
| Ieee.ValIsMonotone | third-party/leptjson/third-party/double-conversion/ieee.h:114-131 | The order of the patterns is the order of the numbers. |
| Ieee.UpperBoundaryIsMidpoint | third-party/leptjson/third-party/double-conversion/ieee.h:182-185 | UpperBoundary is the exact midpoint to the next double. |
| Ieee.LowerNeighbour | third-party/leptjson/third-party/double-conversion/ieee.h:207-218 | The predecessor is half as far away exactly when LowerBoundaryIsCloser says so. |
| Ieee.NearestIffInside | third-party/leptjson/third-party/double-conversion/ieee.h:182-218 | A double is nearest to a rational, ties to even, if and only if the rational is in its rounding interval. |
| Ieee.NearestIsUnique | third-party/leptjson/third-party/double-conversion/ieee.h:182-218 | There is only one nearest double. |
| Strtod.CompareBufferWithDiyFp | third-party/leptjson/third-party/double-conversion/strtod.cc:388-414 | The exact sign of digits * 10^k - f * 2^e. |
| Strtod.ComparedWithMidpoint | third-party/leptjson/third-party/double-conversion/strtod.cc:474-475 | That sign is the side of the midpoint between the guess and its successor on which the decimal lies. |
| Strtod.UpperOrLower | third-party/leptjson/third-party/double-conversion/strtod.cc:476-485 | The side, and parity on a tie, decide correctly between the two doubles. |
| Strtod.NoMidpointBetween | third-party/leptjson/third-party/double-conversion/strtod.h:53-60 | No midpoint lies between neighbouring decimals of 779 digits. |
| Strtod.CuttingIsHarmless | third-party/leptjson/third-party/double-conversion/strtod.cc:104-119 | Replacing everything after 779 digits by a single 1 does not change the rounding. |
| Strtod.TrimAndCut | third-party/leptjson/third-party/double-conversion/strtod.cc:126-143 | Trimming and cutting keep the set of doubles the decimal may be read as. |
| Strtod.ComputeGuess | third-party/leptjson/third-party/double-conversion/strtod.cc:419-442 | Zero, overflow and underflow are decided correctly; everything else meets the contract of a guess. |
| Strtod.StrtodTrimmed | third-party/leptjson/third-party/double-conversion/strtod.cc:466-486 | The nearest double, ties to even. |
| Strtod.Strtod | third-party/leptjson/third-party/double-conversion/strtod.cc:488-495 | The nearest double, the only one, for any number of digits and any exponent. |
| DoubleRoundTrip.IntervalsAgree | third-party/leptjson/third-party/double-conversion/bignum-dtoa.cc:172-184 | The digit generator's interval is exactly the set of decimals that Strtod reads as d. |
| DoubleRoundTrip.EstimateInRange | third-party/leptjson/third-party/double-conversion/bignum-dtoa.cc:385-413 | A good estimate stays in the range the bignums have room for. |
| DoubleRoundTrip.NothingShorterReadsBack | third-party/leptjson/third-party/double-conversion/bignum-dtoa.cc:172-184 | No decimal with fewer digits, whatever its exponent, is read as d. |
| DoubleRoundTrip.NothingCloserReadsBack | third-party/leptjson/third-party/double-conversion/bignum-dtoa.cc:172-184 | No decimal with as many digits or fewer, whatever its exponent, that is read as d is closer to it. |
| DoubleRoundTrip.WriteAndRead | third-party/leptjson/third-party/double-conversion/strtod.cc:488-495 | For every positive double: Strtod of the shortest digits is that double, no shorter decimal reads back as it, and none of the same length that does, at any exponent, is closer. |
| FixedDtoa.UInt128.Multiply | third-party/leptjson/third-party/double-conversion/fixed-dtoa.cc:42-57 | The exact product in four limbs when it fits 128 bits. |
| FixedDtoa.UInt128.Shift | third-party/leptjson/third-party/double-conversion/fixed-dtoa.cc:59-78 | The shift in both directions, across the word boundary. |
| FixedDtoa.UInt128.DivModPowerOf2 | third-party/leptjson/third-party/double-conversion/fixed-dtoa.cc:82-95 | Quotient and remainder by a power of two, exactly. |
| FixedDtoa.UInt128.BitAt | third-party/leptjson/third-party/double-conversion/fixed-dtoa.cc:101-107 | The bit at a position of either word. |
| FixedDtoa.FillDigits32FixedLength | third-party/leptjson/third-party/double-conversion/fixed-dtoa.cc:120-127 | The number in exactly n digits. |
| FixedDtoa.FillDigits32 | third-party/leptjson/third-party/double-conversion/fixed-dtoa.cc:130-150 | The number in as many digits as it has, reversed in place. |
| FixedDtoa.FillDigits64FixedLength | third-party/leptjson/third-party/double-conversion/fixed-dtoa.cc:153-165 | A number below 10^17 in seventeen digits. |
| FixedDtoa.FillDigits64 | third-party/leptjson/third-party/double-conversion/fixed-dtoa.cc:168-186 | A 64-bit number in as many digits as it has. |
| FixedDtoa.RoundUp | third-party/leptjson/third-party/double-conversion/fixed-dtoa.cc:189-216 | One more in the last place; the carry runs to the front and may move the point. |
| FixedDtoa.FillFractionals64 | third-party/leptjson/third-party/double-conversion/fixed-dtoa.cc:237-265 | The fraction in one word, rounded half up to the places asked for; multiplying by five never overflows. |
| FixedDtoa.FillFractionals128 | third-party/leptjson/third-party/double-conversion/fixed-dtoa.cc:266-286 | The same with 128 bits. |
| FixedDtoa.FillFractionals | third-party/leptjson/third-party/double-conversion/fixed-dtoa.cc:230-287 | Integral part and fraction together, rounded half up. |
| FixedDtoa.TrimZeros | third-party/leptjson/third-party/double-conversion/fixed-dtoa.cc:292-307 | No zeros at either end, and the same number. |
| FixedDtoa.FillLarge | third-party/leptjson/third-party/double-conversion/fixed-dtoa.cc:329-365 | Numbers of more than 64 bits, cut at 10^17, exactly. |
| FixedDtoa.FastFixedDtoa | third-party/leptjson/third-party/double-conversion/fixed-dtoa.cc:310-403 | It succeeds exactly for exponent and places up to 20, and then digits and point are v rounded half up to those places, with no zeros at either end. |
| RbShape.RotateKeepsTree | third-party/libuv/include/uv/tree.h:95-133 | Rotations keep the search order, the intervals below every node and the parent links. |
| RbColor.OuterChild | third-party/libuv/include/uv/tree.h:160-201 | The last step of an insertion ends balanced. |
| RbColor.RedFarBlack | third-party/libuv/include/uv/tree.h:204-281 | The rotation that ends a removal restores every black height. |
| RbColor.HeightIsLogarithmic | third-party/libuv/include/uv/tree.h:38-47 | 2^height <= (n+1)^2 for every balanced tree. |
| RbTree.RotateLeft | third-party/libuv/include/uv/tree.h:95-113 | The pointer assignments are the left rotation. |
| RbTree.RotateRight | third-party/libuv/include/uv/tree.h:115-133 | The pointer assignments are the right rotation. |
| RbTree.InsertColor | third-party/libuv/include/uv/tree.h:160-201 | From a red leaf in a balanced tree to a balanced tree. |
| RbTree.RemoveColor | third-party/libuv/include/uv/tree.h:204-281 | From one missing black node to a balanced tree. |
| RbTree.Tree.Insert | third-party/libuv/include/uv/tree.h:351-379 | The tree stays balanced, and its in-order sequence gains exactly the element at its place, or an equal one is returned and nothing changes. |
| RbTree.Tree.Remove | third-party/libuv/include/uv/tree.h:283-348 | The tree stays balanced, and its in-order sequence loses exactly the element, with none, one or two children. |
| RbTree.Tree.Find | third-party/libuv/include/uv/tree.h:382-397 | The element with the key, or null exactly if there is none. |
| RbTree.Tree.NFind | third-party/libuv/include/uv/tree.h:400-418 | The first element not below the key. |
| RbTree.Tree.Next | third-party/libuv/include/uv/tree.h:421-440 | The next element of the in-order sequence. |
| RbTree.Tree.MinMax | third-party/libuv/include/uv/tree.h:464-477 | The first or last element of the sequence. |
| RbTree.Tree.PathsAreShort | third-party/libuv/include/uv/tree.h:38-47 | Any walk down the pointers from the root of n nodes meets at most 2 log2(n+1) of them. |
| PointerHeap.Heap.NodeSwap | third-party/libuv/src/heap-inl.h:72-104 | Exchanging a node with its child rewrites every link around both and no other. |
| PointerHeap.Heap.PathTo | third-party/libuv/src/heap-inl.h:119-125 | The path bits of node n lead from the root to place n. |
| PointerHeap.Heap.Insert | third-party/libuv/src/heap-inl.h:106-148 | A complete binary tree in heap order with mutual links stays one, and gains exactly the node. |
| PointerHeap.Heap.Remove | third-party/libuv/src/heap-inl.h:150-237 | Any node can be taken out: the tree stays one and loses exactly that node; an empty heap stays as it is. |
| PointerHeap.Heap.Dequeue | third-party/libuv/src/heap-inl.h:239-241 | Takes out the smallest node. |
| PointerHeap.Heap.DequeueAll | third-party/libuv/src/heap-inl.h:239-241 | Repeated dequeuing gives all nodes in order. |
| PointerHeap.Heap.MinIsLeast | third-party/libuv/src/heap-inl.h:67-69 | No node is before the root. |
| Queue.Init | third-party/libuv/src/queue.h:27-30 | A link on its own is an empty ring. |
| Queue.Empty | third-party/libuv/src/queue.h:32-34 | True exactly for the empty ring. |
| Queue.Head | third-party/libuv/src/queue.h:36-38 | The first member. |
| Queue.Split | third-party/libuv/src/queue.h:51-60 | Everything from the first member on goes to the other head, in order. |
| Queue.Move | third-party/libuv/src/queue.h:62-67 | All members change heads, in order; an empty ring works too. |
| Queue.InsertHead | third-party/libuv/src/queue.h:69-75 | One more member in front. |
| Queue.InsertTail | third-party/libuv/src/queue.h:77-83 | One more member at the end. |
| Queue.Remove | third-party/libuv/src/queue.h:85-88 | The member is gone and the order stays; removing a link that is on its own changes nothing. |
| TimerStore.Store.HeapInsert | third-party/libuv/src/timer.c:89-91 | The timer's node goes into the pointer heap with its key; heap, ring and nodes stay linked. |
| TimerStore.Store.HeapRemove | third-party/libuv/src/timer.c:100-102 | The timer's node leaves the pointer heap. |
| TimerStore.Store.HeapMin | third-party/libuv/src/timer.c:149-151 | The timer at the root, before which none is. |
| TimerStore.Store.QueueRemove | third-party/libuv/src/timer.c:104-108 | A timer in the ready ring leaves it; an idle one is self-linked, and nothing changes. |
| TimerStore.Store.InsertReady | third-party/libuv/src/timer.c:183 | The timer goes to the end of the ready ring. |
| TimerStore.Store.NextReady | third-party/libuv/src/timer.c:186-190 | The head of the ready ring. |
| Timers.ClampedIsMin | third-party/libuv/src/timer.c:79-81 | The wrap-around test gives the smaller of the sum and 2^64-1. |
| Timers.AppliedValid | third-party/libuv/src/timer.c:68-128 | Starting, stopping, restarting and closing keep every timer in the heap, in the ready queue or in neither, never twice. |
| Timers.TimerLoop.TimerStart | third-party/libuv/src/timer.c:68-95 | The whole new state, on the real heap and ring; refused exactly when closing or without callback. |
| Timers.TimerLoop.TimerStop | third-party/libuv/src/timer.c:98-110 | The whole new state, for active, queued and idle timers. |
| Timers.TimerLoop.TimerAgain | third-party/libuv/src/timer.c:113-123 | The whole new state; refused exactly without callback. What that state is good for: TimerRepeats.AgainWaits. |
| Timers.TimerLoop.NextTimeout | third-party/libuv/src/timer.c:144-162 | -1 without timers, 0 exactly if one is due, otherwise the time until the first, cut at INT_MAX. |
| Timers.TimerLoop.RunTimers | third-party/libuv/src/timer.c:165-195 | With callbacks that perform any operations on any timers: exactly what is due at the start is collected, in the order of timeout and start id, and the final state and the log of calls and operations are those of the pass on values, on the real heap and ring. What a pass leaves behind: TimerRepeats.RepeatingComesBack and NotDueStays. |
| Timers.DueIsUnique | third-party/libuv/src/timer.c:173-184 | There is only one such order of the due timers. |
| Timers.PassIsOk | third-party/libuv/src/timer.c:186-194 | In every pass, whatever the callbacks do, what fires was due, fires once, in order, and untouched; what is due and does not fire was touched. |
| Timers.OnlyDueFire | third-party/libuv/src/timer.c:165-195 | Nothing but what was due at the start fires, no timer started meanwhile, and in the order of the keys at that time. |
| Timers.QuietPass | third-party/libuv/src/timer.c:186-194 | Without operations in the callbacks the log is the due timers firing in order. |
| Timers.TouchedNeverFires | third-party/libuv/src/timer.c:186-194 | Whatever the callbacks of a pass do, a timer that one of them stops, starts, restarts or closes does not fire later in it. |
| Timers.UntouchedFiresOnce | third-party/libuv/src/timer.c:186-194 | Whatever the callbacks of a pass do, a due timer that none of them touches fires at exactly one moment. |
| TimerRepeats.RepeatingComesBack | third-party/libuv/src/timer.c:165-195 | A due timer that no callback touches ends the pass active if and only if it repeats; then it waits with the same interval and callback and a new start id, and is due exactly from min(time + repeat, 2^64-1) on; otherwise it is never due again. |
| TimerRepeats.NotDueStays | third-party/libuv/src/timer.c:165-195 | A timer that is not due and is left alone is the same after the pass. |
| TimerRepeats.DueExists | third-party/libuv/src/timer.c:165-184 | At every later time the due timers can be put in order, so these statements speak of every later pass. |
| TimerRepeats.StartWaits | third-party/libuv/src/timer.c:68-95 | A started timer waits with the given interval, is due exactly from min(time + timeout, 2^64-1) on, and comes after every timer of the same time. |
| TimerRepeats.AgainWaits | third-party/libuv/src/timer.c:113-123 | A restarted timer is due exactly one interval later, under a new start id; without an interval nothing changes. |
| TimerRepeats.SetRepeatWaits | third-party/libuv/src/timer.c:126-128 | A new interval changes nothing else, and counts from the next restart on. |
| TimerRepeats.StopEnds | third-party/libuv/src/timer.c:98-110 | A stopped timer is never due, in the heap or in the ready queue. |
| TimerRepeats.CloseIsForGood | third-party/libuv/src/timer.c:198-200 | A closed timer stays closed and is never due, whatever is done with any timer afterwards. |
| Threadpool.Shared.TakeWork | third-party/libuv/src/threadpool.c:66-139 | One critical section of a worker: what it takes, runs, announces again or waits for. |
| Threadpool.Shared.Post | third-party/libuv/src/threadpool.c:143-161 | The queues after posting, the message for slow work, and whether a worker is signalled. |
| Threadpool.StepKeepsInv | third-party/libuv/src/threadpool.c:57-346 | Every step of every thread keeps the pool's invariant. |
| Threadpool.ItemSafety | third-party/libuv/src/threadpool.c:282-346 | After any interleaving an item is in exactly one place, runs at most once, is done at most once, gets UV_ECANCELED exactly if a cancel succeeded, and then never ran. When a cancel succeeds: ThreadpoolCancel.CancelExactly. |
| Threadpool.SlowBound | third-party/libuv/src/threadpool.c:45-47 | The counter is the number of workers on slow work, and never more than (nthreads+1)/2. |
| Threadpool.PendingIsAnnounced | third-party/libuv/src/threadpool.c:143-161 | Pending slow work means that its message is queued, and it is never queued twice. |
| Threadpool.NoStuckWork | third-party/libuv/src/threadpool.c:66-139 | If all workers wait with no wake-up under way, no work is queued. |
| Threadpool.WorkGoesOn | third-party/libuv/src/threadpool.c:57-140 | As long as an item waits, some worker can take a step. |
| ThreadpoolCancel.CancelExactly | third-party/libuv/src/threadpool.c:282-306 | In every reachable state a cancel succeeds if and only if no worker has the item and its work has not run; then the item leaves its queue, no other item moves, and finishing the cancel gives it to its loop; otherwise nothing changes. |
| ThreadpoolCancel.CancelledNeverRuns | third-party/libuv/src/threadpool.c:282-346 | However things go on after a successful cancel, the work never runs, and the callback gets UV_ECANCELED. |
| ThreadpoolCancel.CallbackGoesOn | third-party/libuv/src/threadpool.c:309-346 | Until the callback of a finished or cancelled item is called, its loop or the cancel has a step that brings it nearer. |
| ThreadpoolCancel.TakeChooses | third-party/libuv/src/threadpool.c:66-118 | A worker takes the oldest work of the kind that is next, slow work only while fewer than half of the workers, rounded up, are on it, and waits only if there is none that it may take. |
| ThreadpoolCancel.FirstInFirstOut | third-party/libuv/src/threadpool.c:66-161 | In every reachable state and for every step: submitted work goes to the end of its queue, taken work is the front of one, a cancel takes out its item, and nothing else changes them. |
| Punycode.VarRoundTrip | third-party/libuv/src/idna.c:261-287 | A delta written as a variable-length integer is read back by section 6.2 of RFC 3492. |
| PunycodeRfc.WrittenExactly | third-party/libuv/src/idna.c:261-287 | Of all sequences of numerals exactly the written one stands for the delta by sections 3.3 and 3.4 of RFC 3492: thresholds clamped to 1 and 26, weights growing by 36 minus the threshold, and only the last digit below its threshold. |
| PunycodeRfc.NumeralsMean | third-party/libuv/src/idna.c:154 | The digits are a to z for 0 to 25 and 0 to 9 for 26 to 35. |
| PunycodeRfc.AdaptMeans | third-party/libuv/src/idna.c:289-305 | The new bias by section 6.1: 36 for each division by 35 that brings the damped delta to at most 455, and 36 * y / (y + 38) for what is left. |
| PunycodeRfc.DivisionsExist | third-party/libuv/src/idna.c:289-305 | There is such a number of divisions. |
| PunycodeRfc.KnownLabel | third-party/libuv/test/test-idna.c:165 | The text of the repository's own test is that label. |
| PunycodeRfc.SnowmanLabel | third-party/libuv/test/test-idna.c:168 | The same with two insertions, the second one after an adaptation. |
| Punycode.EmitVar | third-party/libuv/src/idna.c:261-287 | The loop writes exactly those digits, and its position counter does not wrap. |
| Punycode.AdaptBias | third-party/libuv/src/idna.c:289-305 | The reciprocal arithmetic is the bias adaptation of the RFC, without wrap-around. |
| Punycode.InStepEmit | third-party/libuv/src/idna.c:249-311 | Emitting a delta makes the decoder insert the code point at its position. |
| Punycode.DecodeAssembled | third-party/libuv/src/idna.c:189-222 | Basic code points, delimiter and deltas together decode to the label. |
| Punycode.ToAsciiLabel | third-party/libuv/src/idna.c:152-315 | As much of the text as fits is written; the label is refused exactly for an invalid code point, too big only if it has thousands of code points or numbers that are no code points, and otherwise the text stands for it: itself if ASCII, and else what section 6.2 decodes to exactly the input. No 32-bit operation wraps. |
| WebSocketParser.WebsocketParser.Parse | src/core/websocket_parser.cpp:49-190 | The loop with its bulk copy, fall-through and step back is the byte-at-a-time meaning of the slice, up to an error, and ends. That this meaning unmasks bit for bit: WebSocketFraming.WireIsUnmasked. |
| WebSocketParser.FeedBulk | src/core/websocket_parser.cpp:131-157 | Copying and unmasking many bytes at once is feeding them one by one. |
| WebSocketSteps.Xor | src/core/websocket_parser.cpp:146 | A bit of the result is set if and only if exactly one of the two bytes has it. |
| WebSocketSteps.XorIsUnique | src/core/websocket_parser.cpp:146 | That determines the byte. |
| WebSocketFraming.MaskingIsUnique | src/core/websocket_parser.cpp:131-157 | The masking rule of section 5.3 of RFC 6455 fixes the octets on the wire, and read backwards the payload. |
| WebSocketFraming.WireIsUnmasked | src/core/websocket_parser.cpp:64-157 | Of whatever octets that rule makes of a payload, with any key and length form, the parser makes that payload. |
| WebSocketFraming.LongFrameRefused | src/core/websocket_parser.cpp:133-138 | A frame is refused exactly if it announces more than 2^20 bytes, as soon as a byte follows its header. |
| WebSocketFraming.SlicingDoesNotMatter | src/core/websocket_parser.cpp:49-190 | Any two ways of cutting a stream, with or without an error, give the same frames, callbacks and state. |
| WebSocketFraming.OneFrame | src/core/websocket_parser.cpp:64-184 | One frame, in any length form and with any mask, leaves its payload in the frame record; octet k of a masked one is xor-ed bit by bit with octet k mod 4 of the key. |
| WebSocketFraming.RoundTrip | src/core/websocket_parser.cpp:64-184 | Messages in any number of fragments, however cut, are delivered in order with their opcodes and joined payloads. Masked is the rule of section 5.3 of RFC 6455: WebSocketFraming.MaskingIsUnique. |
| WebSocketFraming.PendingDelivered | src/core/websocket_parser.cpp:131-184 | A final empty frame is delivered with the next byte. |
| WebSocketFraming.ControlFramesDelivered | src/core/websocket_parser.cpp:64-75 | Frames that obey section 5.4 of RFC 6455 are delivered as it says if and only if no control frame stands inside a message. |
| WebSocketFraming.PingInsideMessage | src/core/websocket_parser.cpp:64-75 | A ping between two fragments: what should be delivered and what is. |
| WebSocketFraming.InterSend | src/core/WebSocket.cpp:209-244 | The header is final, unmasked, and has the shortest of the three length forms. |
| WebSocketFraming.ParserUndoesInterSend | src/core/WebSocket.cpp:209-253 | The parser delivers what the server sends. |
| HttpSteps.RunSplits | third-party/http-parser/http_parser.c:641-2147 | Reading in two parts is reading in one go, for the byte-by-byte meaning. |
| HttpSteps.DelimiterAgrees | third-party/http-parser/http_parser.c:1874-1942 | The body is delimited as in section 3.3.3 of RFC 7230 if and only if the message is none of two kinds, named in the statement; without a body it is complete at once, with one nothing is reported yet. |
| HttpSteps.UpgradeEnds | third-party/http-parser/http_parser.c:1885-1942 | Before a change of protocol the message ends with its header and what follows is left, unless it announces a body and is no CONNECT; then it is read like any other. |
| HttpSteps.SizeGuardExact | third-party/http-parser/http_parser.c:2012-2047 | A chunk size is accepted exactly up to 2^64-17, however it is spelled, so content_length neither wraps nor means "absent". |
| HttpGrammar.MessagesExactly | third-party/http-parser/http_parser.c:1996-2116 | Chunked messages are accepted exactly if they are chunks, a last chunk and an empty line, within the limits for sizes and size lines; exactly what stands behind them is left, and the marks are those of the chunks. |
| HttpGrammar.UnhexMeans | third-party/http-parser/http_parser.c:223-232 | The value of each hexadecimal digit in either case, and no other character has one. |
| HttpSteps.MessageNeedsEof | third-party/http-parser/http_parser.c:2160-2185 | True exactly for the responses that section 3.3.3 of RFC 7230 delimits by the end of the connection. |
| HttpSteps.ShouldKeepAlive | third-party/http-parser/http_parser.c:2189-2204 | Section 6.3 of RFC 7230, except for HTTP/1.0 messages with both options. |
| HttpConnection.ConnectionPersists | third-party/http-parser/http_parser.c:1874-2116 | After every complete message, however delimited, the parser expects the next one exactly if section 6.3 of RFC 7230 lets the connection persist, or HTTP/1.0 came with both options; otherwise it is dead. |
| HttpConnection.SlicedConnectionPersists | third-party/http-parser/http_parser.c:641-2147 | The same for every way of cutting the input. |
| HttpConnection.CloseCompletes | third-party/http-parser/http_parser.c:662-683 | The end of the connection completes a body without a length. |
| HttpConnection.ChunksCutOff | third-party/http-parser/http_parser.c:662-683 | Wherever a chunked message is cut off, the end of the connection is an error. |
| HttpConnection.LengthCutOff | third-party/http-parser/http_parser.c:662-683 | The same for a body with a length. |
| HttpSteps.ChunkedDelivered | third-party/http-parser/http_parser.c:1996-2116 | Any chunks, in any spelling and with extensions, deliver the payload, each chunk's marks and one completion, and nothing behind the message is consumed. Whether the connection then persists: HttpConnection.ConnectionPersists. |
| HttpSteps.PayloadDelivered | third-party/http-parser/http_parser.c:1996-2116 | The concatenated body is the concatenated payload, and the message completes once. |
| HttpSteps.LengthDelivered | third-party/http-parser/http_parser.c:1944-1994 | A body with a length is delivered whole and completed once. Whether the connection then persists: HttpConnection.ConnectionPersists. |
| HttpSteps.BodyUntilClose | third-party/http-parser/http_parser.c:1981-1985 | A body without a length is all that comes. |
| HttpParser.HttpParser.Execute | third-party/http-parser/http_parser.c:641-2147 | The loop with its marks, bulk reads and counters does what the bytes mean, and returns how many belong to the message; an empty slice is the end of the connection. What the bytes mean, apart from the code: HttpGrammar.MessagesExactly and HttpConnection.SlicedConnectionPersists. |
| HttpParser.SlicingDoesNotMatter | third-party/http-parser/http_parser.c:641-2147 | A stream without an error leaves the same reports and state however it is cut. |
| HttpParser.SlicedPayloadDelivered | third-party/http-parser/http_parser.c:1996-2147 | A chunked message, cut in any way, delivers its payload and completes once. |
| HttpParser.SlicedLengthDelivered | third-party/http-parser/http_parser.c:1944-1994 | The same for a body with a length. |
| HttpParser.FirstByteIsCountedFirst | third-party/http-parser/http_parser.c:1996-1998 | However the input is cut and after any chunks, a byte read where a size line starts is the first one counted, as the code asserts. |
| HttpParser.FailsAtOnceExactly | third-party/http-parser/http_parser.c:2078-2107 | The next call loses a chunk's data before reporting anything if and only if the byte behind the rest of the data is in it and no carriage return. |
| HttpParser.CutMattersExactly | third-party/http-parser/http_parser.c:2101-2107 | A cut after a successful call changes the outcome if and only if that call has just reported data of a chunk and the next slice has no carriage return behind the rest of it. |
| HttpParser.LostByte | third-party/http-parser/http_parser.c:2101-2107 | A stream whose last body byte is lost in one call and reported in two. |
| Json.RoundTrip | third-party/leptjson/leptjson.cpp:331-349 | For any nesting, with plain keys: parsing what was printed succeeds, ends at the end of the text, and gives the value back if and only if its strings are ASCII. |
| Json.AgainSame | third-party/leptjson/leptjson.cpp:508-533 | What printing and parsing makes of a value is that value exactly when its strings are ASCII. |
| Json.StringSurvives | third-party/leptjson/leptjson.cpp:508-533 | Exactly the ASCII strings survive. |
| Json.KeySurvives | third-party/leptjson/leptjson.cpp:573-581 | A key written without escaping is read back exactly if it needs none. |
| JsonKeys.PrintedSize | third-party/leptjson/leptjson.cpp:535-588 | A printed value weighs at most its size, however its keys look. |
| JsonKeys.ValueLighter | third-party/leptjson/leptjson.cpp:300-311 | Reading a value takes at least as much text, suitably weighed, as its size, and more if one of its keys is not plain. |
| JsonKeys.ReadBackMeansPlain | third-party/leptjson/leptjson.cpp:535-588 | A value that is read back has only plain keys, however its bad keys might rearrange the text. |
| JsonKeys.ExactlyTheseSurvive | third-party/leptjson/leptjson.cpp:535-588 | A well-formed value is read back as it was printed if and only if all its keys are plain and all its strings ASCII, at any depth. |
| Json.BadKeyFails | third-party/leptjson/leptjson.cpp:257-298 | An object whose smallest key has a quotation mark or control character before any backslash is never read back. |
| Json.QuoteInKeyFails | third-party/leptjson/leptjson.cpp:331-349 | The object with the key " is refused with ROOT_NOT_SINGULAR, after MISS_COLON in the inner parser. |
| Json.TrailingTextIsIgnored | third-party/leptjson/leptjson.cpp:336-344 | Text behind a value changes nothing if and only if the value is no integer that the text goes on with: by a point, an exponent, or a digit after anything but zero. |
| JsonTexts.AcceptsExactly | third-party/leptjson/leptjson.cpp:331-349 | A text is accepted, with this value and this end, if and only if it starts with white space and a text of the grammar of RFC 8259 that means the value, and what follows is no part of it; with the liberties named above. |
| JsonTexts.ValueRead | third-party/leptjson/leptjson.cpp:222-311 | Wherever it stands, a text of the grammar is read as what it means, with any blanks, tabs, line feeds and carriage returns inside brackets and around commas and colons. |
| JsonTexts.DocOf | third-party/leptjson/leptjson.cpp:222-311 | Whatever is read was such a text. |
| JsonTexts.SpacesDoNotMatter | third-party/leptjson/leptjson.cpp:50-55 | A text and the same text without white space are both accepted and give the same value. |
| JsonTexts.SpacedPrint | third-party/leptjson/leptjson.cpp:50-55 | A printed value with any white space between its parts is read as the printed text is. |
| JsonTexts.PrintedIsText | third-party/leptjson/leptjson.cpp:535-588 | Every printed value is such a text. |
| JsonTexts.WrittenAs | third-party/leptjson/leptjson.cpp:508-533 | A character is written with the short escape that is read as it, if there is one; else a control character with its four digits, and any other as it is; bytes from 128 on all alike. |
| JsonTexts.FirstMembersCount | third-party/leptjson/leptjson.cpp:257-298 | An object holds, sorted by key, the first member of every key and nothing else. |
| JsonTexts.LessMeans | third-party/leptjson/leptjson.cpp:257-298 | The order of the keys: the first difference decides, and the end comes first. |
| JsonTexts.EscapedScalar | third-party/leptjson/leptjson.cpp:140-205 | Any scalar value, written as one or two groups of hexadecimal digits, is read as the octets that decode to it by RFC 3629, in the shortest form. |
| JsonTexts.Utf8Decodes | third-party/leptjson/leptjson.cpp:140-159 | The octets decode to the number they were made of. |
| JsonTexts.StringRead | third-party/leptjson/leptjson.cpp:161-220 | A string of plain characters, short escapes and groups of hexadecimal digits is read as what they mean. |
| JsonTexts.NumRead | third-party/leptjson/leptjson.cpp:74-125 | A number of the grammar is read as what it means, and refused as too big exactly if it is an integer beyond 64 bits. |
| JsonTexts.CutTo32 | third-party/leptjson/leptjson.cpp:74-125 | What is stored of an integer is the only 32-bit number that differs by a multiple of 2^32. |
| JsonTexts.HalfPair | third-party/leptjson/leptjson.cpp:176-205 | Half of a surrogate pair alone: the low half is read as three octets, the high half refused. |
| JsonContext.LeptContext.ParseNumberText | third-party/leptjson/leptjson.cpp:74-125 | The scanner with its cursor is the specification of numbers. |
| JsonContext.LeptContext.ParseHex4 | third-party/leptjson/leptjson.cpp:127-138 | The loop reads four hexadecimal digits. |
| JsonContext.LeptContext.EncodeUtf8 | third-party/leptjson/leptjson.cpp:140-159 | One to four bytes are pushed, as the specification says. |
| JsonContext.LeptContext.Unescape | third-party/leptjson/leptjson.cpp:176-205 | Each escape, with surrogate pairs and its errors, is the specification's. |
| JsonContext.LeptContext.ParseStringText | third-party/leptjson/leptjson.cpp:161-220 | The loop over the stack gives the specification's characters, cursor and error. |
| JsonContext.LeptContext.ParseArrayText | third-party/leptjson/leptjson.cpp:222-255 | The loop gives the specification's elements, cursor and error. Which texts that accepts, with all white space: JsonTexts.AcceptsExactly. |
| JsonContext.LeptContext.ParseObjectText | third-party/leptjson/leptjson.cpp:257-298 | The same for fields, which go to a sorted map that keeps the first of two equal keys; see JsonTexts.AcceptsExactly and FirstMembersCount. |
| JsonContext.LeptContext.ParseValueText | third-party/leptjson/leptjson.cpp:300-311 | The mutually recursive parser terminates and agrees with the specification. |
| JsonContext.ParseText | third-party/leptjson/leptjson.cpp:331-349 | A whole text, with the error code that is replaced. Which texts are accepted and what they mean: JsonTexts.AcceptsExactly. |
| JsonContext.StringifyString | third-party/leptjson/leptjson.cpp:508-533 | The printer appends exactly the specified text of a string. |
| JsonContext.StringifyValue | third-party/leptjson/leptjson.cpp:535-588 | The same for a value. |

## Left out

- EstimatePower, DiyFpStrtod, DoubleStrtod, the table of cached powers and Grisu3's scaling (fast-dtoa.cc:519-589):
  floating-point steps; their contracts are assumed as said above, and DigitGen is stated for whatever its arguments
  approximate.
- DigitGenCounted, RoundWeedCounted, GenerateCountedDigits and BignumToFixed: the modes with a requested number of
  digits.
- Strtof and the Single class: the same steps in single precision.
- AssignHexString, ToHexString, AsNormalizedDiyFp, NormalizedBoundaries and DiyFpToUint64: easy, and nothing above
  needs them.
- Strtod.Strtod: digits and exponent are unbounded integers; the sum of exponent and length is not checked for 32-bit
  overflow.
- Strtod.ComputeGuess: does not model how the guess is found, because that is floating-point; see the assumption.
- RbTree: keys are integers instead of a comparison function given by the user; RB_PREV, the FOREACH macros and
  RB_AUGMENT are not modelled.
- Timers: the loop's time does not change during a pass, the 64-bit counter of start ids does not wrap around, the
  heap and queue links of a handle are two objects instead of one union, and there are fewer than 2^32 timers.
- Timers.TimerLoop.RunTimers: the operations of each callback are given beforehand, as any lists; what else a callback
  does is left out.
- Grisu.DigitGen: does not say which w, low and high belong to a double; for one digit its closeness at all positions
  is conditional, as Grisu.ClosestOfItsLength says.
- Threadpool: a state machine on values instead of threads; mutexes and condition variables appear only as the steps
  they separate and the wake-ups they allow, spurious ones included. Starting the threads and the wake-up of the event
  loop are not modelled.
- Punycode: labels are sequences of code points; UTF-8 decoding and the splitting of a name into labels
  (idna.c:71-148, 318-367) are left out, and so are the WTF-8 and UTF-16 converters.
- HttpParser: request line, status line, headers and URL; a trailer that is not empty stops the model; the message
  after this one; return codes of callbacks, and pausing. The strict variants of the checks and of NEW_MESSAGE are
  modelled.
- HttpSteps.DelimiterAgrees: does not cover messages that change the protocol; for those see HttpSteps.UpgradeEnds.
- WebSocket: handshake, sessions and sending of files.
- JsonTexts.NumRead: a number that is not an integer is kept as its text; that the code refuses one too large for a
  double is not modelled.
- Json.RoundTrip: does not cover numbers that are not integers, whose text goes through the C library; nor does
  JsonKeys.ExactlyTheseSurvive.
- Sockets, files, the event loop, logging, routing, JWT and TLS: plumbing and other libraries.
