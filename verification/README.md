# Verified models of the Rhodes core

Dafny models, with proofs, of five parts of the Rhodes runtime:

- **Arbitrary-precision integers** (`platform/shared/ruby/bignum.c`): sign-and-magnitude numbers over
  digits below B = 2^32. Addition, subtraction, multiplication, squaring, powers, normalised long division,
  floored division, two's-complement operators, shifts, radix printing (plain and recursive) and the digit
  loop of the parser, each proved to compute the exact integer. Files `Arith`, `Digits`, `BigAdd`, `BigMul`,
  `BigShift`, `BigDiv`, `BigDivMod`, `BigBits`, `Radix`, `BigStr`, `BigParse`.
- **The JSON library** (`platform/shared/json`): the 22-state tokener as a machine on values (`JsonMachine`,
  `JsonParse`) and as a class with its 32-level stack over reference-counted objects (`JsonHeap`,
  `JsonTokener`), the printers (`JsonValue`, `JsonPrinter`), and the hash table with tombstones and an
  insertion-ordered list (`OrderedMap`, `LinkHash`). What the machine reads is stated without it, as a grammar of texts
  with a meaning each (`JsonGrammar`, `JsonDocs`): RFC 4627, with comments, single quotes, bare keys, words in any case,
  octal numbers and a comma before the closing bracket besides. `JsonRun` and `JsonAccepts` lead there; `JsonRefusals` has
  what is refused; `JsonRoundTrip` and `JsonEndToEnd` put printer and tokener together.
- **Ruby arrays** (`platform/shared/ruby/array.c`): copy-on-write sharing (`CowArray`), what its operations do to the
  elements (`CowMeaning`), `combination`
  (`Combination`) and `flatten` (`Flatten`).
- **Branch code and its peephole pass** (`platform/shared/ruby/compile.c`): `Iseq`, `BranchCode`, `Peephole`,
  `PeepholePass`, `PeepholeClean`, `BranchPass` and `LoopPass` (compiler and pass together), `PeepholeGap`,
  `BranchGap`. Code runs over an arbitrary machine state and arbitrary opaque instructions, so equal runs mean equal
  instruction traces, states and outcomes, diverging runs included.
- **Calendar arithmetic** (`lib/framework/date.rb`, `lib/framework/time.rb`): `Civil`, `Weeks`, `Months`,
  `TimeOffset`.

`Wrappers` holds the option type that several of them share.

`dafny verify dfyconfig.toml` checks everything.

Code that works in place is modelled in place: digit arrays, the character buffer of the printer, the slot
array and links of the hash table, the stack of the tokener, the cells of JSON objects, blocks and share
counts of arrays, the stack and `chosen` of `combination`. The tokener has two layers: `JsonMachine.Step` is
one case of the switch as a function, and `JsonTokener.Tokener.Switch` is the statement itself on the stack and
the heap, proved to be that function. Objects under `JsonHeap` hold their entries as an insertion-ordered
list of keys; `LinkHash.Table` is proved to be one.

## Where the code falls short of a promise

Each of these is kept in the model as the code has it. The condition under which the code does meet the promise is
proved with it, in both directions unless said otherwise.

- `apply_offset` moves at most one day past the edge of a month. It keeps the instant if and only if the day
  does so (`TimeOffset.ApplyOffset`); that holds for every offset below a day (`TimeOffset.WithinADay`), and fails
  from every month's last day with `-48:00`, which `zone_offset` accepts (`TimeOffset.TwoDaysShort`,
  `TimeOffset.January31Short`).
- Inverting a branch over a jump skips the labels between the two (`get_prev_insn`). It is right in every code
  exactly when there is no label there (`PeepholeGap.GapSafeIff`), and right in a given code when those labels are
  unused (`Peephole.InversionPreserves`). The compiler's own output runs into it: on
  `if a || (true || c) then else d end` the pass inverts around a label in use (`BranchGap.PassMakes`), and the
  statement then runs `d` when `a` is falsy (`BranchGap.PassIsWrong`). For a whole pass the condition is stated one way:
  it ends and is right when the code has no jump cycle and every inversion it comes to finds only unused labels
  (`PeepholePass.InsnList.Optimize`). `PeepholeClean.CleanIsSafe` tells that from the code alone. A condition in which no
  second operand starts with a literal may stand anywhere in code that is clean around it, before or behind the labels
  it goes to (`BranchPass.LedClean`), and compiler and pass together are right there (`BranchPass.CompileAndOptimize`).
  For `while` and `until` loops over such conditions they return exactly when the loop ends, with what it leaves
  (`LoopPass.CompileLoop`); `LoopPass.NestedWhileIsClean` is a loop in a loop.
- The lookup of a missing key ends if and only if the table has an EMPTY slot, since tombstones are not counted
  (`LinkHash.LookupStopsIff`). Inserting and deleting one key for each slot leaves none, whatever the hash
  (`LinkHash.FillWithTombstones`); runs of `json_object_object_add` alone always leave one, and a lookup at their end finds
  the last value written (`LinkHash.Table.AddAllThenLookup`).
- A text that ends inside a comment after a finished value is a success at any depth, and the inner value is
  returned. Success with levels still open happens exactly for these texts (`JsonAccepts.OpenTextIff`): an opening bracket,
  any value and an open comment is one (`JsonDocs.OpenArray`, `JsonDocs.OpenOne`).
- The bytes appended for a `\u` escape are UTF-8 if and only if it spells no surrogate (`JsonAccepts.Utf8RoundTrip`). A
  surrogate pair becomes six bytes that are no UTF-8, where section 2.5 of RFC 4627 means one character of four
  (`JsonAccepts.SurrogatePair`).
- In a comment two stars in a row cancel. The closing `*/` is seen if and only if the text before it ends in an even
  number of stars (`JsonAccepts.CommentSkippedIff`), so `/***/` stays open (`JsonAccepts.StarComment`).
- `rb_ary_store` at the last index its size check allows asks for one slot too few
  (`CowArray.GrowthCovers`); that index needs more memory than an address space holds.
- `combi_len` notices an overflow only when the wrapped product is smaller than before. It is right if and only if its last
  product fits a long (`Combination.CombiLen`); otherwise `combination` raises, or silently stops early
  (`Combination.Combination`), as for pairs out of 2^32 + 2 elements (`Combination.UnnoticedWrap`).
- `civil_to_jd` compares with the reform day before it has chosen the calendar. For a reform on or
  before 1 March 200 (Julian) the day before it does not survive the round trip, for every later one all days do (`Civil.JdRoundTripIff`).

Of the escapes of section 2.5 of RFC 4627 the tokener refuses `\f` (`JsonRefusals.EscapeRefused`) and upper-case digits behind
`\u` (`JsonRefusals.CodeRefused`). What follows a finished value is not read (`JsonRefusals.RestIgnored`).

The documentation of `combination` promises no order; the code's order is lexicographic, and the model proves
that.

## Model

| member | source | states |
|---|---|---|
| BigAdd.Smaller | platform/shared/ruby/bignum.c:1389-1411 | comparing lengths and then digits from the top decides which magnitude is smaller, both ways |
| BigAdd.BigSub | platform/shared/ruby/bignum.c:1389-1431 | the borrow loop gives the signed difference of the magnitudes, whichever is larger |
| BigAdd.Add | platform/shared/ruby/bignum.c:1435-1474 | for every combination of signs the result is the integer sum or difference |
| Digits.DoubleFits | platform/shared/ruby/bignum.c:1551-1560 | a product of digits with a carry and a digit fits the double word and leaves one digit of carry, at every step of the multiplication |
| BigMul.MulDigits | platform/shared/ruby/bignum.c:1539-1567 | schoolbook multiplication is the exact product, skipped zero digits included |
| BigMul.Mul | platform/shared/ruby/bignum.c:1570-1609 | the signed product |
| BigMul.AddDoubled | platform/shared/ruby/bignum.c:2061-2080 | adding twice the cross product at digit k, with its carry chain, is exact and grows the buffer by at most one digit |
| BigMul.Sqr | platform/shared/ruby/bignum.c:2038-2082 | the recursive assembly of (a B^k + b)^2 stays in its buffer and is the square |
| BigMul.PowLoop | platform/shared/ruby/bignum.c:2127-2133 | square-and-multiply from the top bit is x^n for every positive Fixnum exponent |
| BigMul.BigPow | platform/shared/ruby/bignum.c:2098-2137 | x^n for every non-negative Fixnum exponent, refused exactly when n times the length of x is more than 262144 digits |
| BigShift.ShiftLeftInto | platform/shared/ruby/bignum.c:1717-1736 | shifting digits left by dd bits is multiplication by 2^dd, with the carry out |
| BigShift.RightShiftedValue | platform/shared/ruby/bignum.c:1766-1776 | shifting digits right, with bits coming in from above, is division by 2^dd rounding down |
| BigDiv.TrialDigit | platform/shared/ruby/bignum.c:1639-1640 | the trial digit is never too small and at most 2 too large, and the remainder after it lies between -B^ny and the divisor |
| BigDiv.PendingBorrow | platform/shared/ruby/bignum.c:1652-1662 | the borrow left after subtracting is zero or exactly one, so that stopping at the first carry out is right |
| BigDiv.SubtractAndFix | platform/shared/ruby/bignum.c:1641-1664 | multiply-subtract and add-back leave the exact quotient digit and remainder of the window |
| BigDiv.DivRem1 | platform/shared/ruby/bignum.c:1625-1667 | for a divisor with its top bit set, quotient digits above and remainder below are exact |
| BigDivMod.NormalizeShift | platform/shared/ruby/bignum.c:1711-1716 | the shift sets the top bit and no more |
| BigDivMod.DivRem | platform/shared/ruby/bignum.c:1670-1781 | truncated division for all signs; an error exactly when y is zero |
| BigDivMod.DivMod | platform/shared/ruby/bignum.c:1784-1796 | quotient rounded down and remainder with the divisor's sign |
| BigDivMod.FlooredUnique | platform/shared/ruby/bignum.c:1784-1796 | that quotient and remainder are the only ones |
| BigBits.Get2Comp | platform/shared/ruby/bignum.c:152-171 | the two's complement B^n - v, growing by a digit exactly when v is zero |
| BigBits.Bitwise | platform/shared/ruby/bignum.c:2167-2329 | and, or and xor agree with infinite two's-complement integers bit by bit, for all signs and lengths |
| BigBits.BitNot | platform/shared/ruby/bignum.c:1369-1386 | not is -x - 1, and flips every bit |
| BigBits.BitsDetermine | platform/shared/ruby/bignum.c:2167-2329 | integers with the same bits are equal, so the bit-by-bit contracts determine the result |
| BigBits.LeftShift | platform/shared/ruby/bignum.c:2380-2403 | multiplication by 2^s |
| BigBits.RightShift | platform/shared/ruby/bignum.c:2446-2486 | division by 2^s rounding down, for all signs |
| Radix.MinimalConcat | platform/shared/ruby/bignum.c:895-923 | the expansion without leading zeros splits at a power of the base |
| Radix.ScanReads | platform/shared/ruby/bignum.c:548-594 | for every text, the digit loop gives the positional value of the longest numeral it starts with: ASCII digits below the base in either case, single underscores anywhere |
| Radix.ReadsOnce | platform/shared/ruby/bignum.c:548-594 | there is only one such value |
| Radix.MinimalIs | platform/shared/ruby/bignum.c:691 | a number is printed in lower-case digits of that positional value, without a leading zero |
| Radix.ToBaseIs | platform/shared/ruby/bignum.c:863-892 | the same with padding, in exactly len digits |
| BigStr.Big2StrOrig | platform/shared/ruby/bignum.c:863-892 | the plain loop writes the exact base expansion, padded or without leading zeros, and nothing outside its field |
| BigStr.PowerCache.GetPower | platform/shared/ruby/bignum.c:788-809 | the cached power is base^(2^m) with n1 <= 2^m < 2 n1, whatever is in the cache |
| BigStr.Big2StrKaratsuba | platform/shared/ruby/bignum.c:895-923 | the recursive split writes the same expansion as the plain loop |
| BigStr.Big2Str0 | platform/shared/ruby/bignum.c:926-969 | sign and digits of every number in bases 2 to 36, an error exactly for other bases |
| BigParse.MulAddInPlace | platform/shared/ruby/bignum.c:569-582 | one digit: the number times the base plus the digit, in place, growing as needed |
| BigStr.BufferIsLarge | platform/shared/ruby/bignum.c:523-554 | the buffer sized by bits per character holds every number of that many digits |
| BigParse.ParseDigits | platform/shared/ruby/bignum.c:548-594 | the accumulation loop computes that value, for every text and base |
| BigParse.ParseInum | platform/shared/ruby/bignum.c:470-594 | and with a sign in front the signed value |
| BigParse.ParsePrinted | platform/shared/ruby/bignum.c:548-594 | the value read from the text of x is x, for every x and base, padded or not; the sign and the length of the text |
| BigParse.PrintThenParse | platform/shared/ruby/bignum.c:926-969 | printing by either algorithm and parsing gives back the number |
| JsonMachine.Step | platform/shared/json/json_tokener.c:168-520 | every case keeps the stack invariant: depth in 0..31, levels below the top hold containers waiting to add; pushes and pops only where they may be; a redo lowers a rank |
| JsonParse.FeedCostBound | platform/shared/json/json_tokener.c:166-525 | a character costs at most ten executions of the switch, and at most one push or pop |
| JsonParse.CostCounts | platform/shared/json/json_tokener.c:166-525 | that cost is the number of executions the loop makes, and the levels it adds and takes away |
| JsonParse.ParseCostLinear | platform/shared/json/json_tokener.c:148-525 | a whole call is linear in the input |
| JsonParse.FeedIgnoresObj | platform/shared/json/json_tokener.c:151-246 | the local obj is never live between characters |
| JsonParse.ChunkIndependence | platform/shared/json/json_tokener.c:148-165 | feeding a text in two pieces gives the same stack, buffers, error and value as feeding it whole |
| JsonValue.ScanPrintInt | platform/shared/json/json_object.c:324-328 | every int64 survives printing and scanning |
| JsonRoundTrip.RoundTrip | platform/shared/json/json_tokener.c:148-539 | for every tree of null, booleans, int64, NUL-free strings, arrays and unique-key objects, the printed text parses back to the tree, key order included, if it nests at most 32 levels, and is refused as too deep otherwise |
| JsonRoundTrip.PrintIsRfc | platform/shared/json/json_object.c:80-232 | the printed text is a text of RFC 4627 that means the tree, each byte, number and separator as the printers write it |
| JsonRoundTrip.UnquoteEscape | platform/shared/json/json_object.c:91-132 | whatever the bytes, what stands between the quotes is a string of section 2.5 of RFC 4627, and that section reads it as those bytes |
| JsonRoundTrip.PiecesForIs | platform/shared/json/json_object.c:91-132 | which bytes are escaped, and how, by their codes |
| JsonGrammar.ReadGap | platform/shared/json/json_tokener.c:171-181 | tabs, line feeds, vertical tabs, form feeds, carriage returns, blanks and comments of both kinds, in any number and order, leave the machine where it was |
| JsonGrammar.ReadLit | platform/shared/json/json_tokener.c:301-367 | a string in quotes of either kind, of raw bytes, short escapes and codes, gives the bytes they stand for, up to a NUL |
| JsonGrammar.ReadNum | platform/shared/json/json_tokener.c:394-413 | an integer gives its positional value in base 10, or base 8 after a 0, clamped to 64 bits; a number with a fraction or an exponent a double |
| JsonDocs.ParsesDoc | platform/shared/json/json_tokener.c:107-118 | every text of the grammar, with gaps wherever they may be, is read to its end as what it means if it nests at most 32 levels, and is refused as too deep otherwise |
| JsonDocs.ChunkedDoc | platform/shared/json/json_tokener.c:148-165 | the same when the text is cut in two anywhere: the first piece is taken whole, and more is asked for until the value is finished |
| JsonRefusals.ValueRefused | platform/shared/json/json_tokener.c:183-239 | where a value may start, exactly which characters are refused |
| JsonRefusals.ElementRefused | platform/shared/json/json_tokener.c:437-449 | the same behind an element |
| JsonRefusals.FieldRefused | platform/shared/json/json_tokener.c:509-519 | behind a field |
| JsonRefusals.ColonRefused | platform/shared/json/json_tokener.c:481-489 | behind a key |
| JsonRefusals.EscapeRefused | platform/shared/json/json_tokener.c:314-341 | behind a backslash |
| JsonRefusals.CodeRefused | platform/shared/json/json_tokener.c:343-367 | in a code |
| JsonRefusals.CommentRefused | platform/shared/json/json_tokener.c:265-276 | behind a slash |
| JsonRefusals.NullRefused | platform/shared/json/json_tokener.c:248-263 | in the word null, at each letter |
| JsonRefusals.BoolRefused | platform/shared/json/json_tokener.c:369-395 | in the words true and false |
| JsonRefusals.NumberRefused | platform/shared/json/json_tokener.c:394-413 | behind the characters of a number, the scan decides |
| JsonRefusals.IntRefused | platform/shared/json/json_tokener.c:399-401 | an integer is refused exactly without a digit behind its sign |
| JsonRefusals.DoubleRefused | platform/shared/json/json_tokener.c:402-403 | a double exactly without a digit around its point, or without one in its exponent |
| JsonRefusals.TextUnfinished | platform/shared/json/json_tokener.c:525-531 | a text that ends inside a string or key is unfinished |
| JsonRefusals.RestIgnored | platform/shared/json/json_tokener.c:241-242 | what follows a finished value is not read |
| JsonAccepts.UnicodeEscape | platform/shared/json/json_tokener.c:332-367 | in a string or key in quotes of either kind, `\u` and any four lower-case hexadecimal digits append the bytes for the code unit they spell |
| JsonAccepts.Utf8RoundTrip | platform/shared/json/json_tokener.c:346-360 | those bytes are its UTF-8 encoding in the shortest form, as section 3 of RFC 3629 reads it, if and only if it is no surrogate; a surrogate gives bytes that are no UTF-8 |
| JsonAccepts.SurrogatePair | platform/shared/json/json_tokener.c:343-362 | every escaped surrogate pair becomes six bytes, neither half of them UTF-8 |
| JsonAccepts.OpenSuccessIff | platform/shared/json/json_tokener.c:148-539 | from any state between characters, a call on a NUL-terminated text succeeds with levels open if and only if the text ends inside a comment after a finished value with levels open, and then returns that value |
| JsonAccepts.OpenTextIff | platform/shared/json/json_tokener.c:107-118 | the same for a text parsed from the start |
| JsonDocs.OpenArray | platform/shared/json/json_tokener.c:525-533 | such texts: an opening bracket, any one item and an open comment give that item's value |
| JsonDocs.OpenOne | platform/shared/json/json_tokener.c:525-533 | the shortest of them, with the number 1 |
| JsonAccepts.CommentSkippedIff | platform/shared/json/json_tokener.c:265-299 | a comment leaves the machine where it was if and only if its text ends in an even number of stars |
| JsonAccepts.StarComment | platform/shared/json/json_tokener.c:291-299 | a comment whose end is overlooked |
| JsonPrinter.PrintBuf.EscapeStr | platform/shared/json/json_object.c:91-132 | the run-copying loop appends the escape of each byte in order, up to the NUL |
| JsonPrinter.PrintBuf.ToJsonString | platform/shared/json/json_object.c:212-232 | the recursive printers append the text of the value |
| JsonHeap.CellsAppend | platform/shared/json/json_object.c:137-151 | the cells of owners side by side are those of each, and disjoint: ownership adds up |
| JsonHeap.Heap.Put | platform/shared/json/json_object.c:145-151 | one reference goes, and with the last one exactly the object and all it owns, once each |
| JsonHeap.Heap.ArrayAdd | platform/shared/json/json_object.c:501-504 | the array becomes the owner of the element |
| JsonHeap.Heap.ObjectAdd | platform/shared/json/json_object.c:268-273 | the object becomes the owner of the value; a value replaced under the same key is freed with all it owns |
| JsonHeap.WithFieldValue | platform/shared/json/json_object.c:268-273 | adding a field is an ordered-map update and keeps keys unique |
| JsonTokener.Tokener.constructor | platform/shared/json/json_tokener.c:73-79 | a new tokener is the machine's initial state and owns nothing |
| JsonTokener.Tokener.FinishCase | platform/shared/json/json_tokener.c:241-246 | the finished value leaves its level and is in flight, its count one again |
| JsonTokener.Tokener.Switch | platform/shared/json/json_tokener.c:168-520 | one execution of the switch on the stack and the heap is one step of the machine, and every object still has exactly one owner |
| JsonTokener.Tokener.FeedChar | platform/shared/json/json_tokener.c:166-525 | the redo loop ends and is the machine's answer to the character |
| JsonTokener.Tokener.ParseEx | platform/shared/json/json_tokener.c:148-539 | the call leaves the stack, error and offset of the machine, and hands out one more reference on success |
| JsonTokener.Tokener.Reset | platform/shared/json/json_tokener.c:98-105 | every level's object is put, from the top down: all are freed, except one the caller holds, which keeps one reference |
| JsonTokener.Parse | platform/shared/json/json_tokener.c:107-118 | an error leaves no object alive; success leaves just the returned tree, each object with count one, and it is the parsed value |
| JsonEndToEnd.PrintThenParse | platform/shared/json/json_tokener.c:107-118 | printing into a buffer and parsing it rebuilds the value as freshly owned objects, or reports depth and leaves nothing |
| OrderedMap.PutIsMapUpdate | platform/shared/json/json_object.c:268-273 | delete-then-append keeps keys unique, reads back the new value and leaves other keys alone |
| OrderedMap.GetPutAll | platform/shared/json/json_object.c:268-273 | after any run of additions a key reads the last value added under it, or what it read before |
| LinkHash.Table.Lookup | platform/shared/json/linkhash.c:163-184 | the value the ordered map has for the key, if the probe stops |
| LinkHash.Table.Insert | platform/shared/json/linkhash.c:129-160 | an absent key goes to the end of the ordered map, the table doubled beyond the load factor; every live key stays reachable from its hash slot |
| LinkHash.Table.DeleteEntry | platform/shared/json/linkhash.c:187-213 | the entry leaves the ordered map, the others keep their order, the slot becomes a tombstone |
| LinkHash.Table.Delete | platform/shared/json/linkhash.c:216-221 | the ordered map without the key; nothing changes if it is absent |
| LinkHash.Table.Resize | platform/shared/json/linkhash.c:96-114 | the same ordered map in a table without tombstones |
| LinkHash.Table.ObjectAdd | platform/shared/json/json_object.c:268-273 | an ordered-map update; no tombstone survives and an EMPTY slot remains, so every lookup ends |
| LinkHash.Table.AddAllThenLookup | platform/shared/json/json_object.c:268-273 | a run of additions to the table is that run on the ordered map, and a lookup at its end stops and finds the last value written |
| LinkHash.LookupStopsIff | platform/shared/json/linkhash.c:163-184 | from any start, over any number of rounds, the loop comes to the key or to an EMPTY slot if and only if the table has one of them |
| LinkHash.FillWithTombstones | platform/shared/json/linkhash.c:129-213 | for every hash, inserting and deleting one key for each slot leaves an empty map whose slots are all tombstones, so that no lookup stops |
| CowArray.InvDecrement | platform/shared/ruby/array.c:176-189 | returning a share keeps the count at or above the number of arrays pointing in, and a block is freed only when none does |
| CowArray.InvMakeShared | platform/shared/ruby/array.c:372-392 | handing a block to a shared root keeps every invariant |
| CowArray.Heap.Modify | platform/shared/ruby/array.c:231-253 | an array gets storage of its own and nothing reads differently |
| CowArray.Heap.Store | platform/shared/ruby/array.c:568-602 | only the array stored to changes, gaps filled with nil; IndexError exactly when out of range |
| CowArray.GrowthCovers | platform/shared/ruby/array.c:583-593 | the new capacity has room for the index except for the last one allowed |
| CowArray.Heap.MakePartial | platform/shared/ruby/array.c:606-631 | a new array that reads as the slice; nothing else reads differently |
| CowArray.Heap.Push | platform/shared/ruby/array.c:680-684 | only the array pushed to changes |
| CowArray.Heap.Pop | platform/shared/ruby/array.c:710-725 | the last element, and only that array shortened |
| CowArray.Heap.Shift | platform/shared/ruby/array.c:759-781 | the first element, and only that array shortened, whether it moves or shares |
| CowArray.Heap.Subseq | platform/shared/ruby/array.c:886-900 | the clamped slice as a new array, nil exactly when out of range |
| CowArray.Heap.Splice | platform/shared/ruby/array.c:1182-1237 | the range replaced in that array only, even when the replacement shares its block or is the array itself |
| CowArray.Heap.Replace | platform/shared/ruby/array.c:2336-2374 | the copy reads as the original and nothing else changes |
| CowArray.Heap.SweepRoot | platform/shared/ruby/array.c:364-369 | collecting a root frees its block exactly when no array points into it, and no array reads differently |
| CowArray.Heap.Run | platform/shared/ruby/array.c:143-392 | over any run of operations on any arrays, garbage collection of arrays and of roots included, replies and contents are those of independent sequences |
| CowMeaning.Stores | platform/shared/ruby/array.c:568-602 | element by element: a[i] = val on such a sequence, from the end for a negative index, nil in the gap, IndexError exactly out of range |
| CowMeaning.Pushes | platform/shared/ruby/array.c:680-684 | push |
| CowMeaning.Takes | platform/shared/ruby/array.c:710-781 | pop and shift, nil from an empty array |
| CowMeaning.Cuts | platform/shared/ruby/array.c:886-900 | a[beg, len] |
| CowMeaning.Splices | platform/shared/ruby/array.c:1182-1237 | a[start, len] = r: length, the elements before, those of r and those behind the range, nil in the gap, IndexError exactly out of range |
| Combination.BinomStep | platform/shared/ruby/array.c:3520-3527 | the division in each step of combi_len is exact |
| Combination.StepsIs | platform/shared/ruby/array.c:3520-3527 | on 64-bit longs that wrap around, the loop gives the binomial coefficient if and only if every product on the way fits, and never more than it |
| Combination.CombiLen | platform/shared/ruby/array.c:3512-3529 | the binomial coefficient if and only if the last product fits a long, zero outside 0..n; otherwise the RangeError or too small a number |
| Combination.UnnoticedWrap | platform/shared/ruby/array.c:3522-3525 | the range check passes a wrapped product: pairs out of 2^32 + 2 elements |
| Combination.CombosMember | platform/shared/ruby/array.c:3556-3595 | the recursive list holds exactly the increasing index tuples |
| Combination.CombosSorted | platform/shared/ruby/array.c:3556-3595 | in lexicographic order, hence each once |
| Combination.CombosCount | platform/shared/ruby/array.c:3512-3529 | as many as the binomial coefficient |
| Combination.Combination | platform/shared/ruby/array.c:3556-3595 | the iterative enumerator yields the elements of that list in that order, up to the number that combi_len gives: all of them if and only if its last product fits a long, a prefix or the RangeError otherwise |
| Flatten.FlattenIter | platform/shared/ruby/array.c:3114-3161 | the walk with an explicit stack ends, and gives the recursive result or the recursion error, for every level and every graph of arrays |
| Flatten.FlattenedSpreads | platform/shared/ruby/array.c:3114-3161 | the result is the elements in order, each array replaced by its own elements, down to the level |
| Flatten.ModifiedIff | platform/shared/ruby/array.c:3114-3161 | it counts as modified exactly if an array was replaced |
| Flatten.FlattenedLeaves | platform/shared/ruby/array.c:3114-3161 | without a level no array is left in the result |
| Flatten.RecursiveIff | platform/shared/ruby/array.c:3134-3141 | an array is refused if and only if, within the level, a chain of elements from it comes to an array that is already on the chain |
| BranchCode.CompileCorrect | platform/shared/ruby/compile.c:2187-2230 | wherever it stands, the code reaches then_label exactly when short-circuit evaluation is truthy, else else_label, with the same leaves evaluated in the same order |
| BranchCode.EvalHolds | platform/shared/ruby/compile.c:2187-2230 | that evaluation is the truth of and, or and literals, when leaves do not affect each other |
| Iseq.Bisimulation | platform/shared/ruby/compile.c:1653-1749 | two codes that answer each other step by step show the same states, traces and returns |
| Peephole.ThreadingPreserves | platform/shared/ruby/compile.c:1682-1749 | sending a jump or branch straight to where a jump would take it keeps every run |
| Peephole.RemovalPreserves | platform/shared/ruby/compile.c:1670-1681 | dropping a jump to the next instruction keeps every run |
| Peephole.ReturnPreserves | platform/shared/ruby/compile.c:1688-1708 | turning a jump to leave into leave keeps every run |
| Peephole.InversionPreserves | platform/shared/ruby/compile.c:1709-1732 | inverting a branch over a jump keeps every run when no used label lies between |
| Peephole.RewritePreserves | platform/shared/ruby/compile.c:1653-1749 | whatever the pass decides at an element keeps every run, an inversion under that condition |
| PeepholePass.InsnList.PeepholeAt | platform/shared/ruby/compile.c:1653-1749 | without jump cycles, and when every inversion the pass comes to finds only unused labels: one call, its goto again included, ends, makes the decisions of the pass and keeps every run, whatever the opaque instructions do |
| PeepholePass.InsnList.Optimize | platform/shared/ruby/compile.c:1871-1895 | under the same condition the decisions of the pass come to the end of the code, and the code has the same runs as before |
| PeepholeClean.SealedInPass | platform/shared/ruby/compile.c:1723-1732 | on clean code the pass never inverts around a label in use |
| PeepholeClean.CleanIsSafe | platform/shared/ruby/compile.c:1871-1895 | clean code, a property of the code alone, meets that condition at every element the pass comes to |
| PeepholeClean.CleanEndsThreaded | platform/shared/ruby/compile.c:1682-1749 | where the pass over clean code ends, whatever goes to a jump goes to one that goes to none |
| BranchPass.LedClean | platform/shared/ruby/compile.c:2187-2230 | wherever a condition stands in which no second operand starts with a literal, the program is clean if the rest of it is and both labels lead to no jump, to a solid one, or lie behind, the else label then through at most one jump that is not solid |
| BranchPass.CompileAndOptimize | platform/shared/ruby/compile.c:2187-2230 | compiled between any such head and tail and optimised, the condition goes on, whenever a run comes to it, where short-circuit evaluation says, with the same leaves evaluated in the same order |
| LoopPass.LoopIsClean | platform/shared/ruby/compile.c:3167-3222 | every while or until loop over such a condition is clean, the redo label before the condition included |
| LoopPass.LoopReturns | platform/shared/ruby/compile.c:3167-3222 | the code of a loop returns exactly when the loop ends after some number of rounds, with the state and the trace of those rounds; a loop that never ends never returns |
| LoopPass.CompileLoop | platform/shared/ruby/compile.c:3167-3222 | the same of the loop compiled and optimised |
| LoopPass.NestedWhileIsClean | platform/shared/ruby/compile.c:3167-3222 | a loop in a loop, whose last jump goes back to a jump, is clean |
| BranchGap.TurnJump | platform/shared/ruby/compile.c:1653-1732 | what one decision makes of a jump: dropped before its target, sent on, turned into leave and pop, inverted with the branch before it, or kept |
| BranchGap.TurnBranch | platform/shared/ruby/compile.c:1735-1749 | and of a branch |
| BranchGap.PassMakes | platform/shared/ruby/compile.c:1723-1732 | for `if a or (true or c) then else d end` as compiled, the pass inverts around a label in use and comes to the end of the code, in eighteen decisions |
| BranchGap.PassIsWrong | platform/shared/ruby/compile.c:1723-1732 | when a is falsy the statement did nothing before and runs its else branch after, for every meaning of the leaves |
| PeepholeGap.GapSafeIff | platform/shared/ruby/compile.c:1638-1651 | inverting is right in every code with given labels between branch and jump if and only if there are none |
| Civil.JdRoundTrip | lib/framework/date.rb:395-437 | civil_to_jd of jd_to_civil is the identity for GREGORIAN, JULIAN, ITALY and ENGLAND |
| Civil.JdRoundTripIff | lib/framework/date.rb:395-437 | and for a reform day in general if and only if it is after 1 March 200 of the Julian calendar |
| Civil.ValidCivilIff | lib/framework/date.rb:614-627 | a date is accepted, with day jd, exactly when jd_to_civil of jd is the date |
| Civil.ValidCivilExactly | lib/framework/date.rb:614-627 | that is so for every date and day if and only if the start is no reform before the day after 1 March 200 |
| Civil.CivilRoundTrip | lib/framework/date.rb:395-437 | every date of the pure calendars comes back from its day number |
| Civil.OnItsCalendar | lib/framework/date.rb:417-437 | for every start, each day number has the date that the calendar in force on it gives, and it obeys that calendar's month lengths and leap years |
| Civil.ValidIsOnCalendar | lib/framework/date.rb:614-627 | in the pure calendars the dates accepted are exactly those of the month and leap-year rules |
| Civil.NextDayCivil | lib/framework/date.rb:417-437 | for every start, the next day number is the next calendar day, except over the reform itself |
| Civil.LeapIs | lib/framework/date.rb:1287-1290 | leap? agrees with the leap-year rule of its calendar for every year |
| Weeks.FindFdoy | lib/framework/date.rb:334-340 | the first day of January that exists; 1 January in the pure calendars and for every reform within a year |
| Weeks.NamedReforms | lib/framework/date.rb:301-305 | ITALY and ENGLAND are reforms within a year; the last day of the old and the first of the new calendar of each |
| Weeks.Epoch | lib/framework/date.rb:325-327 | 1 January 1970 is day 2440588, a Thursday in week 1 |
| Weeks.YearHolds | lib/framework/date.rb:417-437 | in the pure calendars and for every reform within a year, a day lies between the first days of its year and of the next |
| Weeks.WeekOneIs | lib/framework/date.rb:444-449 | there, week 1 starts on a Monday and holds 4 January; a year has 52 or 53 weeks, only that of the reform maybe fewer |
| Weeks.CommercialRoundTrip | lib/framework/date.rb:444-465 | the week date of a day lies in its week year, weeks 1 to 53, days 1 to 7, and counts weeks and days from the Monday of week 1 |
| Weeks.CommercialUnique | lib/framework/date.rb:444-465 | no other week date does |
| Weeks.ThursdayYear | lib/framework/date.rb:458-465 | the week year is the calendar year of the week's Thursday (section 4.1.4 of ISO 8601:2004) |
| Months.FindLdom | lib/framework/date.rb:358-364 | the last day of a month that exists |
| Months.CheckCivil | lib/framework/date.rb:614-627 | for every month and day, negative ones included: a negative month counts from the end of the year, a negative day by day numbers from the month's last day, and the call fails exactly if the month has no day |
| Months.CountedBackIs | lib/framework/date.rb:618-623 | counting back gives that very day if it is still in the month, for every start for which day numbers survive |
| Months.CountedBackPure | lib/framework/date.rb:618-623 | in the pure calendars day -1 is the last of the month, and so on down to its first |
| Months.AddMonths | lib/framework/date.rb:1406-1412 | for every start: year and month are n months on, and in that month it is the same day or the last one before it that exists; if a reform leaves none of those, the month's last day, and an error exactly if it leaves no day |
| Months.ClippedPure | lib/framework/date.rb:1406-1412 | in the pure calendars that is the same day or the last day of a shorter month, and there always is one |
| TimeOffset.ApplyOffset | lib/framework/time.rb:129-169 | a valid date and time of the right second of the day; the instant is the input's minus off if and only if the day moves at most one past the edge of its month |
| TimeOffset.WithinADay | lib/framework/time.rb:129-169 | that is so for every offset below a day |
| TimeOffset.TwoDaysShort | lib/framework/time.rb:141-151 | it is not so two days on from any month's last day |
| TimeOffset.January31Short | lib/framework/time.rb:141-151 | such a day: 31 January 2009 |

## Left out

- Floating point in bignums (`dbl2big`, `big2dbl`, `rb_big_fdiv`) and JSON doubles, which are printed with `%lf` and do not come back exactly: a double keeps the text it was read from.
- Type dispatch, coercion, `bignorm`'s conversion to Fixnum, interrupt flags, allocation failure and GC registration.
- BigStr.Big2Str0: the output length n2 is a parameter that must be large enough; the `log_2` table that estimates it is not modelled, nor the bit tricks of `ceil_log2`.
- BigParse.ParseInum: starts at the sign; white space, radix prefixes, the squeeze of leading zeros and the `STRTOUL` fast path are not modelled.
- BigMul.BigPow: Fixnums of 62 bits and a sign; negative and non-integer exponents are not modelled.
- JsonDocs.ParsesDoc: one way; which other texts are refused is stated character by character only (JsonRefusals), not as a grammar.
- JsonHeap.Heap.ObjectAdd: an object's entries are a list of keys and values; the hash table under it is joined to them only through the ordered map both are proved to be.
- JsonTokener.Parse: objects made before the call are not part of its heap; the logging of errors is left out.
- LinkHash.Table.Insert: keys are inserted only when absent, as `json_object_object_add` does, and the load factor 0.66 is 66/100.
- LinkHash.Table.Resize: only to sizes that keep the load factor, as the insert that calls it chooses; for a smaller one the inner table would grow while its size is recorded as the one asked for.
- `array_list` beyond appending, and `printbuf`'s growth: sequences and a string.
- CowArray.Heap.Store: not for the last index below the size limit, where the code writes past its block (see GrowthCovers); frozen arrays and safe levels are not modelled.
- CowArray.Heap.Push: not for an array whose end is that index, for the same reason.
- Combination.Combination: a long has 64 bits and wraps around; the block does not change the array.
- Flatten.FlattenIter: elements are arrays or not; conversion by `to_ary` is not modelled.
- BranchCode.CompileCorrect: a leaf's own code is one opaque instruction.
- PeepholePass.InsnList.Optimize: the rest of `iseq_optimize` (tail calls, specialised instructions), ADJUST elements and exception tables that name labels are not modelled; on jump cycles the goto again loop need not end and nothing is claimed.
- PeepholePass.InsnList.PeepholeAt: the condition is one way; an inversion around a label that is named only by code that never runs does no harm.
- BranchPass.LedClean: one way as well; some conditions with a literal in front of a second operand also come out right.
- LoopPass.CompileLoop: the body is a sequence of opaque instructions, and the loop is the whole program; `break`, `next` and `redo`, which go through exception tables, are not modelled.
- Weeks.WeekOneIs: for the pure calendars and reforms that leave every year its 1 January and a week before the reform; a reform around the turn of a year is not modelled.
- Weeks.CommercialRoundTrip: for the same starts as Weeks.WeekOneIs.
- Weeks.CommercialUnique: for the same starts as Weeks.WeekOneIs.
- Weeks.ThursdayYear: for the same starts as Weeks.WeekOneIs.
- `strftime`, `_strptime`, `_parse` and the zone names of `time.rb`, which are regular expressions.
- Rhom, the database adapters, threads, files, logging and generators.
