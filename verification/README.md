# A verified model of tensile's strings, exceptions and XDR codec

This project states in Dafny what three C components of tensile compute and proves the
properties they exist for. `dafny verify dfyconfig.toml` checks everything.

**Exceptions (`status.c`).** `Programs.dfy` is a small-step machine: the live activations of
`tn_with_exception` with their saved handler pointers, the global pointer, code, origin and
details, and the user's memory, which no jump rolls back. Handlers and continuations are
arbitrary functions of what they are given. `TryCatch.dfy` is a structured big-step semantics
without pointers, stack or jumps; the two are proved equal in both directions, for all programs
and all runs. `Rules.dfy` writes
out what one guarded call does in each case. `Delivery.dfy` is about which exception a handler receives. `Runtime.dfy` is the C
text as methods that change the globals: live calls of `tn_with_exception` are objects, the
global and every `previous_handler` are references to them, and a jump goes to the stack height
saved in the object that the global refers to. Its steps are proved to be the machine's.

- A throw is `TN_EXCEPTION` in `Report`; a failed `assert(status != 0)` and `abort()` are the
  state `Aborted`. A jump to a frame that is gone, or a landing with code 0, would be `Faulted`;
  no run gets there.
- A rethrow reads the globals when the handler returns `EAGAIN`, so a guarded call made by the
  handler changes what is rethrown. The documentation in `status.h` is silent on this.
  `RethrowFaithfulIff` gives the exact condition and `GuardedCleanupLosesException` a program
  that aborts although a guard encloses the throw.

**Strings (`dstring.c`).** A string is a length and a pointer into a blob, an `array<byte>` that
other strings may share. `Strings.dfy` has the operations on blobs, `ByteStrings.dfy` what they
mean on byte sequences and the laws between them, `EditDistance.dfy` the distance, and
`Sharing.dfy` arbitrary sequences of operations over a pool of strings. `Bytes` comparison is
unsigned, and of `memcmp` only the sign is used.

- `tn_substr` and `tn_strcut` add `pos + len` in a `size_t`, and the wrap-around is modelled.
  Exactly when it occurs, `tn_substr` returns a string that passes the end of its argument
  (`SubStrStaysInsideIff`), and `tn_strcut` does not cut but repeats bytes (`RemainsWithoutIff`):
  cutting "abcdef" from 2 with the largest length gives "abbcdef" (`CutToEndRepeats`). Its result
  is still a valid string. All other lengths are mathematical.
- The comment in `tn_str2cstr` says that every string is NUL-terminated or part of one that is.
  `tn_strmap` and the copying case of `tn_strcut` do not write that byte. `Ended` is the claim;
  all other operations keep it, and after any sequence it holds of all strings exactly when no
  such byte happened to be anything but a NUL (`Sharing.PerformAll`), so whatever the allocated
  memory held exactly when there was no such operation (`SequenceAlwaysEndsIff`).
  `MappedWithoutNul` and `CutWithoutNul` are inputs for which it fails. `Valid` only has what
  holds of every string: the byte is allocated.

**XDR (`xdr.c`, `xdr.h`).** `XdrFormat.dfy` has descriptors and values of any nested shape, the
encoding `Wire`, and `Encode` and `Decode` with every check, partial write and error of the code.
`XdrEncoding.dfy` and `XdrRoundTrip.dfy` prove their relation. `XdrLayout.dfy` pins the format down in
literal bytes, ranges and statuses. `XdrStream.dfy` is the code over a
moving data pointer in a block of memory; each method is proved to do to memory, position and
status exactly what `Encode` or `Decode` says. `XdrSessions.dfy` has single calls, sequences of
calls and a transfer over one block. `XdrWords.dfy` has words, shifts and masks.

- The code pads by `len % 4` bytes, sections 4.9 to 4.11 of RFC 4506 ask for a multiple of four.
  `Padding` has both; all results hold of both, the stream uses the code's. `AlignedIff` and
  `ConformsIff` say exactly which values the code aligns, and encodes as the RFC asks, item for
  item: those without a byte field of odd length. In the size of the whole two such fields make up
  for one another (`TotalAlignedIff`, `OffsetsCancel`).
- `tn_xdr_decode_var_array` overwrites the status of its length decoding before testing it.
  `DecodeVarArray` has the test; `UntestedVarArrayIff` says exactly when that makes no difference.
- The small-value encoders read a narrow value through a wide pointer; modelled is the intended
  widening. `float` and `double` are their bit patterns. `size_t` has 64 bits.
- A count is rejected on both sides when it is above the bytes left, so an array of elements
  that take no bytes is rejected although it would fit (`EmptyElementsNeedSpace`). A comment in
  `tn_xdr_encode_length` calls this the minimum possible space requirement, which holds only of
  elements of at least one byte (`SubstantialSucceedsIff`).

Allocation always succeeds and returns fresh memory with arbitrary contents.

## Model

| member | source | states |
|---|---|---|
| Programs.StepsKeepGood | status.c:154-190 | in every state a sound state can reach, each frame has saved its enclosing frame, and the handler pointer is null or names the innermost live frame, the enclosing one once a rethrow has begun |
| Programs.EveryReachableStateIsGood | status.c:58-77 | from the start of any program, no run ever jumps to a dead frame or lands with exception code 0 |
| TryCatch.EvalStable | status.c:154-190 | an outcome of the structured semantics does not depend on the evaluation bound once it is large enough |
| TryCatch.MachineRuns | status.c:48-78 | a program with a structured outcome takes the machine, over any live frames, back to its caller with those frames and that pointer, or to a landing in the innermost guard, or to abort |
| TryCatch.MachineCatches | status.c:167-185 | the landing code of the machine ends as catching does in the structured semantics, over any live frames |
| TryCatch.EndedRunEvaluates | status.c:154-190 | every run of the machine that ends has an outcome in the structured semantics |
| TryCatch.MachineRefinesTryCatch | status.c:154-190 | the machine ends if and only if structured try/catch has an outcome, and then with that outcome, for every program and initial memory |
| TryCatch.OutcomeIsReached | status.c:154-190 | every program with an outcome in the structured semantics is at its end after some number of steps and any larger one |
| TryCatch.GuardRestoresPointer | status.c:160-189 | a guarded call that gives a result returns with exactly the frames and the handler pointer it was entered with, whatever was thrown meanwhile |
| TryCatch.CatchEnds | status.h:122-129 | a handler whose throws lower a well-founded rank of the status is called finitely often |
| TryCatch.GuardedCallEnds | status.c:165-185 | with such a handler and an action that ends, the machine finishes the guarded call: it returns, rethrows or aborts |
| Rules.ReportRule | status.c:58-77 | a report that is not an exception changes nothing, a fatal one aborts |
| Rules.AccessRule | status.c:154-156 | an action or a handler reads and updates the user's memory, which no jump rolls back |
| Rules.OutermostReturn | status.c:190 | the outermost program ends with the status it returns |
| Rules.ThrowRule | status.c:60-72 | a throw fills in status, origin and the first 255 characters of the message and lands in the innermost guard; it aborts with status 0 or without a guard |
| Rules.ReturnRule | status.c:159-189 | an action that returns a status: the call returns it, with the frames and the pointer it found |
| Rules.ThrowUnderNull | status.c:167-189 | a throw under a null handler: the call returns the thrown status, three steps later |
| Rules.HandlerIsCalled | status.c:170-173 | a throw under a handler: it is called with the origin, the status and the cut message, its guard still the innermost one |
| Rules.HandlerReturnRule | status.c:174-189 | what a handler returns the call returns, except EAGAIN (11), which throws what the globals hold past this guard, or aborts without another |
| Rules.HandlerThrowRule | status.c:60-68 | a throw by a handler lands in the same guard again, with the new exception |
| Rules.NullHandlerReturnsStatus | status.c:170-189 | whatever the action throws, a guarded call without a handler returns its status, in the structured semantics and on the machine |
| Rules.HandlerReturnsStatus | status.c:171-189 | a guarded call whose handler is given the exception and returns a status other than EAGAIN returns that status |
| Rules.EagainThrowsOutwards | status.c:174-182 | one whose handler returns EAGAIN raises what the globals hold then in the enclosing guard |
| Rules.HandlerThrowIsCaughtAgain | status.c:165-185 | one whose handler throws comes out as if the action had thrown that |
| Rules.GuardedThrowIsStatus | status.c:154-190 | a program that guards one throw without a handler ends with the thrown status |
| Programs.Cut | status.c:64-65 | the first 255 characters of a message, or all of a shorter one |
| Delivery.EvalExplained | status.c:64-67 | after any evaluation the globals hold the last throw's origin and cut message, and the code of the last guarded call completed, or are untouched when there was none |
| Delivery.RethrowFaithfulIff | status.c:172-182 | a rethrow delivers the exception the handler was given if and only if the handler completed no guarded call, or the last one it completed returned that very status and the last throw inside had the same origin and message |
| Delivery.GuardedCleanupLosesException | status.c:172-182 | a handler that makes one successful guarded call before rethrowing aborts the program although a guard encloses it |
| Delivery.PlainHandlersIff | status.c:171-173 | the condition unfolded: which programs have only handlers without guarded calls |
| Delivery.LastThrowIsDelivered | status.c:62-68 | when no handler makes a guarded call, every exception any guard receives, through any rethrows, is the last one thrown: same status, same origin, message cut to 255 characters once |
| Delivery.RethrowOnce | status.c:174-182 | a guard whose handler returns EAGAIN at once raises exactly what its action raised |
| Delivery.RethrowChain | status.c:174-182 | any number of guards that only rethrow hand on exactly the memory the throw left |
| Delivery.ChainReachesHandler | status.c:174-182 | the first handler outside such a chain is called exactly as if it alone enclosed the throw |
| Runtime.Process.JumpWith | status.c:60-68 | filling in the globals and jumping through the global is the machine's raise |
| Runtime.Process.LongJump | status.c:68 | going to the stack height saved in the object that the global refers to leaves exactly the calls up to that one |
| Runtime.Process.ReportStatus | status.c:48-78 | a report throws, aborts or lets its caller go on, by severity |
| Runtime.Process.HandlerIsLive | status.c:160-190 | in a sound state the global refers to the innermost live call, the one around it when a rethrow has begun, or is null when none is live |
| Runtime.Process.EnterGuard | status.c:159-166 | a guarded call saves the global reference, installs a new one to itself and clears the code |
| Runtime.Process.LeaveGuard | status.c:187-189 | the reference saved by the innermost call is put back, the call is gone, and the code goes to its caller |
| Runtime.Process.HandleException | status.c:167-173 | the second return of sigsetjmp calls the handler with origin, code and details, or returns the code |
| Runtime.Process.Advance | status.c:154-190 | the code on the globals takes exactly the machine's step and stays sound |
| Runtime.Process.RunFor | status.c:154-190 | the code stays sound over any number of steps, and is then exactly where the machine is |
| Runtime.Execute | status.c:154-190 | a run ends within its limit if and only if the machine does, and then with the status of the structured semantics, or none when that aborts |
| EditDistance.DistanceBounds | dstring.c:754-781 | the distance lies between the difference and the maximum of the lengths |
| EditDistance.DistanceZeroIff | dstring.c:754-755 | the distance is zero exactly between equal strings |
| EditDistance.DistanceSymmetric | dstring.c:767-781 | the distance is symmetric although only the second string indexes the rows |
| EditDistance.DistanceTriangle | dstring.c:767-781 | the distance obeys the triangle inequality |
| EditDistance.SamePrefix | dstring.c:767-781 | a common prefix does not count |
| EditDistance.SameSuffix | dstring.c:767-781 | a common suffix does not count |
| EditDistance.NoScriptIsCheaper | dstring.c:772-775 | no sequence of insertions, deletions and replacements, at any places, is shorter than the distance |
| EditDistance.CheapestScript | dstring.c:772-775 | some such sequence turns the first string into the second in exactly that many edits |
| EditDistance.DistanceIsLeastEdits | dstring.c:746-782 | the recurrence is the one number that is the least length of an edit script |
| Strings.StrDistance | dstring.c:746-782 | the two-row loop with its swap and its early returns returns the least number of edits between the two strings |
| Strings.FillRow | dstring.c:769-776 | the inner loop turns one row of the distance table into the next |
| Strings.DistanceZeroIffEqual | dstring.c:754-755 | the distance is zero exactly when tn_strcmp is |
| Strings.CompareByLength | dstring.c:146-156 | comparing the common length first and the lengths after that is lexicographic order |
| Strings.StrCmp | dstring.c:146-156 | the sign of tn_strcmp is lexicographic order on unsigned bytes |
| ByteStrings.CompareNegativeIff | dstring.c:146-156 | one string comes before another exactly when it is a proper prefix of it or has the smaller byte at the first place where they differ |
| ByteStrings.CompareZeroIff | dstring.c:146-156 | equal in the order means equal bytes |
| ByteStrings.CompareAntisymmetric | dstring.c:146-156 | swapping the arguments negates the result; any two strings compare |
| ByteStrings.CompareTransitive | dstring.c:146-156 | the order is transitive, and strictly so |
| ByteStrings.CompareAfterPrefix | dstring.c:181-197 | putting a common prefix before both sides keeps the order |
| ByteStrings.PrefixComesFirst | dstring.c:538-545 | a prefix comes no later than its extension |
| Strings.StrIsPrefix | dstring.c:538-545 | accepts exactly the prefixes |
| Strings.StrIsSuffix | dstring.c:547-555 | accepts exactly the suffixes |
| ByteStrings.IsSuffixIff | dstring.c:547-555 | a suffix is what some other string can be put before |
| Strings.SubStrIsSlice | dstring.c:302-313 | without wrap-around, a view of the bytes from pos, at most len, in the same blob |
| Strings.SubStrStaysInsideIff | dstring.c:305-312 | the result has the length of that slice if and only if pos is past the end or pos + len fits a size_t |
| Strings.SubStrPassesEnd | dstring.c:305-312 | when `pos + len` wraps, tn_substr returns the length asked for, which passes the end of the string |
| Strings.StrCut | dstring.c:332-354 | for every `size_t` `pos` and `len`, leaves what `Remains` says: the string without the bytes tn_substr should give or, when `pos + len` wraps, the bytes before `pos` and then those from the wrapped sum on; a view of the argument, or in the copying case a new blob behind whose bytes stands what the memory held |
| Strings.CutAndSlice | dstring.c:302-354 | what should be cut out and what is then left make up the whole string |
| Strings.RemainsWithoutIff | dstring.c:338-351 | a cut removes exactly the bytes tn_substr should give if and only if `pos` is past the end or `pos + len` fits a `size_t` |
| Strings.WrappingCutRepeats | dstring.c:338-351 | a cut that wraps puts in again what stands between the wrapped sum and `pos` |
| Strings.RemainsLength | dstring.c:345-351 | a cut that wraps makes the string longer |
| Strings.CutToEndRepeats | dstring.c:338-351 | such a cut, of "abcdef" from 2 on with the largest length, gives "abbcdef" |
| Strings.CutFitsIff | dstring.c:347-350 | the two copies stay inside the allocation if and only if the cut does not wrap or `len` exceeds the length of the string by two or more |
| Strings.StrCat | dstring.c:181-197 | the bytes of both: one of the arguments itself when the other is empty, otherwise a new blob with a NUL behind them |
| Strings.StrAddCh | dstring.c:213-223 | the bytes, the character and a NUL, in a new blob |
| Strings.StrCats | dstring.c:242-275 | the two passes fill a buffer exactly with the recursive join of the strings and a NUL behind it; a single string is returned itself |
| ByteStrings.JoinSnoc | dstring.c:256-268 | one more string is joined behind a separator |
| Strings.Str2CStr | dstring.c:103-121 | the bytes followed by NUL: the string's own if and only if a NUL already stands behind it, otherwise a new copy |
| Strings.PartStaysEnded | dstring.c:108-110 | a part of a string that has a NUL somewhere behind it in its blob has one too |
| Strings.MappedWithoutNul | dstring.c:108-110 | mapping "a" to itself can give a string with no NUL behind it |
| Strings.CutWithoutNul | dstring.c:108-110 | so can cutting the second character out of "abc" |
| Strings.StrStr | dstring.c:482-514 | found if and only if the text occurs, and then at its first occurrence; the position is left alone otherwise |
| Strings.StrLcPrefix | dstring.c:373-386 | the loop finds the common prefix, as a view of the first string |
| Strings.StrLcSuffix | dstring.c:388-402 | the loop finds as many last bytes as agree, as a view of the first string |
| ByteStrings.CommonPrefixIsLongest | dstring.c:373-386 | every string that is a prefix of both arguments is a prefix of that result |
| ByteStrings.CommonSuffixIsLongest | dstring.c:388-402 | every string that is a suffix of both arguments is a suffix of that result |
| ByteStrings.StrippingKeepsDistance | dstring.c:373-402 | removing the common prefix, then the common suffix of the remainders, leaves the distance unchanged |
| ByteStrings.CorePutsTogether | dstring.c:373-402 | the common prefix, what is left of each string, and the common suffix make up the strings |
| ByteStrings.CoreEndsDiffer | dstring.c:373-402 | what is left has no common end any more |
| Strings.StrTok | dstring.c:575-604 | points tok at the first run of non-delimiters and moves src past it, or touches neither |
| Strings.Tokenize | dstring.c:575-604 | calling tn_strtok until it returns false ends and yields the tokens and the tail, all of them slices of the string's own blob, the tail its end |
| ByteStrings.SpansAreMaximalRuns | dstring.c:581-594 | a span is found if and only if it is a maximal run of non-delimiters |
| ByteStrings.TokensAreTheMaximalRuns | dstring.c:575-604 | the tokens are exactly the maximal runs of non-delimiters, each once and in order |
| ByteStrings.NothingIsLost | dstring.c:575-604 | skipped delimiters, tokens and the unconsumed tail concatenate to the original string |
| ByteStrings.GapsAreDelimiters | dstring.c:581-587 | what is skipped, and the tail, are delimiters only |
| ByteStrings.SplitOfJoinIff | dstring.c:242-275 | with a non-empty separator of delimiters, tokenising the joined string gives the strings back if and only if all are non-empty and free of delimiters |
| Strings.StrFilter | dstring.c:665-684 | the characters accepted by the predicate, in order, and a NUL, in a new blob |
| ByteStrings.KeptPlaces | dstring.c:674-679 | the characters kept are those at the places the predicate accepts, each once and in order |
| Strings.StrMap | dstring.c:631-645 | every character mapped, in a new blob; a NUL stands somewhere behind them if and only if the memory held one in the last byte |
| Strings.StrRepeat | dstring.c:705-723 | n copies of the string, one after the other, and a NUL, in a new blob; the string itself when n is one |
| ByteStrings.RepeatedStretch | dstring.c:717-718 | each of the n stretches of the result is the string |
| Sharing.PerformAll | dstring.c:102-354 | over any sequence of operations on strings that share blobs, wrapping cuts included, every earlier string keeps its pointer and its bytes, every result is valid, and each says what its operation means on byte sequences; if all strings had a NUL behind them they all have one in the end if and only if every byte left as allocated was one |
| Sharing.AlwaysEndsIff | dstring.c:108-110 | one operation gives such a string whatever the memory held if and only if it is neither a mapping of a non-empty string nor a copying cut |
| Sharing.SequenceAlwaysEndsIff | dstring.c:108-110 | a sequence gives only such strings whatever the memory held if and only if none of its operations is one of those two |
| XdrWords.UnwordWord | xdr.h:147-169 | ntohl undoes htonl |
| XdrWords.WordUnword | xdr.h:147-169 | four bytes come from one word only |
| XdrWords.ShiftAndMaskSplit | xdr.c:253-254 | the shift and the mask give the upper and lower half of a 64-bit value, signed or not |
| XdrWords.OrOfBits | xdr.c:275 | the or has a bit exactly where one of its arguments has it |
| XdrWords.AndOfBits | xdr.c:254 | the mask keeps a bit exactly where both have it |
| XdrWords.SplitJoin | xdr.c:248-308 | the split and the join by shift and or restore every 64-bit value, and the halves are in range |
| XdrWords.HyperIsBigEndian | xdr.c:248-292 | the two words of any 64-bit value, signed or not, are the eight bytes of its two's complement form, most significant first, as in section 4.5 of RFC 4506 |
| XdrLayout.WordDecodes | xdr.h:134-216 | any four bytes decode as int32, uint32 and float, with their big-endian value, in two's complement for int32 |
| XdrLayout.SmallDecodes | xdr.h:389-445 | they decode as bool, int8 or int16 if and only if the signed value lies in the range of the C type, and give EOVERFLOW otherwise |
| XdrLayout.SmallUnsignedDecodes | xdr.h:389-445 | they decode as uint8 or uint16 if and only if the unsigned value lies in the range of the C type, and give EOVERFLOW otherwise |
| XdrLayout.HyperDecodes | xdr.c:263-308 | any eight bytes decode as int64, uint64 and double |
| XdrLayout.ShortScalars | xdr.c:263-308 | with fewer bytes ENOMSG; of eight the first four are consumed if they were there |
| XdrLayout.ScalarTypes | xdr.h:429-445 | the values of each scalar type |
| XdrLayout.CompositeTypes | xdr.c:470-619 | the values of arrays, structures and unions: as many items as there should be, each of its own type |
| XdrLayout.ByteFieldLayout | xdr.c:345-419 | a byte field is its bytes and len % 4 zeros, after its length in four bytes if that varies |
| XdrLayout.CStringLayout | xdr.h:275-280 | of a C string the characters before the first NUL are written, after their number |
| XdrLayout.CStringReadsAll | xdr.c:448-467 | a C string is read with all its bytes, those behind a NUL too |
| XdrFormat.UpToNul | xdr.h:275-280 | strlen: no NUL in what is taken, and a NUL right behind it when something is left |
| XdrLayout.UnionLayout | xdr.c:583-600 | a union is its discriminant in four bytes and the arm it names |
| XdrLayout.ArrayLayout | xdr.c:470-520 | an array is its elements, after their number in four bytes if that varies |
| XdrLayout.StructLayout | xdr.c:543-561 | a structure is its fields |
| XdrLayout.ItemsInOrder | xdr.c:478-484 | items stand one after the other, in order |
| XdrLayout.PlainRefusals | xdr.c:170-227 | reading and writing are all or nothing, refused with ENOMSG and ENOSPC |
| XdrLayout.CountRefusals | xdr.c:310-326 | a count above 32 bits gives EOVERFLOW, one without that many bytes after it ENOSPC, and neither is written |
| XdrLayout.HalfRefusals | xdr.c:248-392 | of a 64-bit value the first word, of a byte field the data may be left behind by ENOSPC, nothing else |
| XdrLayout.ReadCount | xdr.c:328-343 | a count gives ENOMSG without four bytes and EPROTO when fewer bytes follow than it says |
| XdrLayout.ReadBytes | xdr.c:362-406 | a byte field gives ENOMSG without its bytes or its padding and EPROTO when a padding byte is not zero |
| XdrLayout.ReadDiscriminant | xdr.c:602-619 | a discriminant gives ENOMSG without four bytes and EPROTO when it names no arm; otherwise its arm is read |
| XdrLayout.ReadItems | xdr.c:489-581 | reading items ends at the first one refused, with its status and what it consumed |
| XdrLayout.ReadComposite | xdr.c:489-581 | arrays and structures are read as their items |
| XdrLayout.ReadVarArray | xdr.c:522-541 | a variable array is read as its items, behind its count |
| XdrLayout.WriteItems | xdr.c:470-561 | writing items ends at the first one refused, with its status and what it left |
| XdrLayout.RefusalIs | xdr.c:310-326 | EOVERFLOW means that some count is above 32 bits; where space is ample it is returned then, and nothing else is refused |
| XdrEncoding.EncodeMeets | xdr.c:470-600 | by induction over the shape, what an encoder leaves is a prefix of the encoding, and all of it if and only if it succeeds |
| XdrEncoding.EncodeSucceedsIff | xdr.c:310-326 | encoding succeeds if and only if the counts fit 32 bits, the encoding fits the space, and every variable array has no more elements than bytes are left after its count; it always leaves a prefix of the encoding, the whole of it only then |
| XdrEncoding.EmptyIff | xdr.c:470-487 | whether a value takes no bytes depends on its shape alone |
| XdrEncoding.SubstantialSucceedsIff | xdr.c:310-326 | with array elements of at least one byte, encoding succeeds if and only if the encoding fits the space |
| XdrEncoding.EmptyElementsNeedSpace | xdr.c:320-322 | an array of elements of no bytes takes four bytes but is accepted if and only if there are as many spare bytes as it has elements |
| XdrEncoding.AlignedIff | xdr.c:349-359 | with the code's padding every item at every depth takes a multiple of four bytes, as sections 4.9 to 4.11 of RFC 4506 ask, if and only if no byte field has an odd length |
| XdrEncoding.ConformsIff | xdr.c:349-359 | every item at every depth is encoded as RFC 4506 asks if and only if no byte field has an odd length |
| XdrEncoding.AlignedWire | xdr.c:349-359 | without such fields the whole encoding is the one of RFC 4506 |
| XdrEncoding.TotalAlignedIff | xdr.c:349-359 | the whole encoding has a multiple of four bytes if and only if the number of such fields is even; with the padding of RFC 4506 always |
| XdrEncoding.ZerosPassForPadding | xdr.c:349-359 | of two such fields, of one byte and of three zeros, the whole encoding is the one of RFC 4506 nevertheless |
| XdrEncoding.OffsetsCancel | xdr.c:349-359 | two fields of one byte take four bytes together and neither is aligned; a decoder that follows RFC 4506 rejects them unless the second byte is zero |
| XdrRoundTrip.DecodeReturns | xdr.c:328-619 | decoding an encoding and what follows it gives the value, with C strings cut at their first NUL, and stops behind the encoding, or fails with EPROTO exactly when an array lacks room |
| XdrRoundTrip.RoundTrip | xdr.c:328-619 | from a stream that begins with the encoding of a value, decoding gives the value back and stops behind it if encoding it into a stream of that size succeeds, and fails with EPROTO if not |
| XdrRoundTrip.EncodeThenDecode | xdr.c:380-600 | what an encoder wrote at the front of a stream, a decoder reads back from it |
| XdrRoundTrip.SubstantialRoundTrip | xdr.c:328-343 | with array elements of at least one byte the round trip needs no trailing bytes |
| XdrRoundTrip.ScalarCanonical | xdr.h:408-427 | a scalar that passes its range check encodes to the bytes it was read from |
| XdrRoundTrip.DecodeTyped | xdr.c:522-619 | whatever decodes has the shape that was asked for and counts that can be encoded |
| XdrRoundTrip.DecodeThenEncodeIff | xdr.c:362-377 | encoding what was decoded into a stream of the same size reproduces the consumed bytes if and only if no C string in it has a NUL |
| XdrRoundTrip.EmbeddedNulIsLost | xdr.c:448-467 | eight bytes that decode as a C string of two characters, the second a NUL, and re-encode as six |
| XdrRoundTrip.OneEncoding | xdr.c:395-446 | no two byte strings decode to one value |
| XdrStream.Stream.ReadFromStream | xdr.c:170-184 | reads all it is asked for and advances, or leaves the stream alone with ENOMSG |
| XdrStream.Stream.WriteToStream | xdr.c:213-227 | writes all of it and advances, or leaves memory and stream alone with ENOSPC |
| XdrStream.Stream.EncodeHyper | xdr.c:248-292 | writes both words, or only the first when the second does not fit |
| XdrStream.Stream.DecodeHyper | xdr.c:263-308 | joins two words into the value they were split from |
| XdrStream.Stream.EncodeLength | xdr.c:310-326 | refuses counts above 32 bits and counts that leave no room, without writing |
| XdrStream.Stream.DecodeLength | xdr.c:328-343 | accepts a count only when that many bytes are left |
| XdrStream.Stream.EncodeBytes | xdr.c:380-392 | writes data and zero padding, or the data alone when the padding does not fit |
| XdrStream.Stream.DecodeBytes | xdr.c:394-406 | takes data and padding and rejects padding that is not zero |
| XdrStream.Stream.EncodeArray | xdr.c:470-487 | the loop writes the elements one after the other and stops at the first failure |
| XdrStream.Stream.EncodeStruct | xdr.c:543-561 | the loop writes the fields one after the other and stops at the first failure |
| XdrStream.Stream.EncodeVarArray | xdr.c:508-520 | writes the count, then the elements |
| XdrStream.Stream.EncodeUnion | xdr.c:583-600 | writes the discriminant, then the arm it names |
| XdrStream.Stream.DecodeArray | xdr.c:489-506 | the loop reads exactly the elements the format gives |
| XdrStream.Stream.DecodeStruct | xdr.c:563-581 | the loop reads exactly the fields the format gives |
| XdrStream.Stream.DecodeVarArray | xdr.c:522-541 | reads the count and that many elements, with the status test after the count |
| XdrStream.Stream.DecodeUnion | xdr.c:602-619 | rejects a discriminant that names no arm, and reads the arm otherwise |
| XdrStream.Stream.EncodeValue | xdr.h:288-292 | for any nested shape, memory, position and status end exactly as the format says |
| XdrStream.Stream.DecodeValue | xdr.h:288-292 | for any nested shape, value, position and status are exactly what the format says, and memory is untouched |
| XdrSessions.Send | xdr.c:470-600 | success or not, the memory between old and new position is a prefix of the encoding and all other memory is unchanged; the prefix is all of it exactly on success, and success is exactly when everything fits |
| XdrSessions.PerformAll | xdr.c:170-227 | over any sequence of calls, failed ones included: the memory passed over is the calls' pieces one after the other and all other memory is unchanged; an encoder's piece is a prefix of its encoding, and all of it exactly when its status says success; a decoder's status and value are those of the format on the bytes that were there from the start, which it leaves; the position never goes back or past the limit, data is base plus position |
| XdrSessions.Transfer | xdr.c:380-619 | a value encoded into a block and decoded from its start comes back |
| XdrSessions.UntestedVarArrayIff | xdr.c:528-535 | without the status test the decoder is the tested one, whatever the uninitialised count, if and only if the length decodes; otherwise it may report an empty array as a success |

## Left out

- Strings.StrCut: is for sizes of which the copies fit what is allocated (`CutFits`); that is so for every string that is no longer than the largest C object (`CutOfObjectFits`).
- Sharing.PerformAll: stops at a tn_substr whose `pos + len` wraps, because its result passes the end of its blob and is not a string any more.
- XdrStream.Stream.DecodeVarArray: tests the status of the length decoding, which the C code does not; `UntestedVarArrayIff` states the difference.
- XdrStream.Stream.EncodeScalar: widens small values as intended; reading a narrow object through a wide pointer is not modelled.
- The layout of C objects: element sizes, `elsize` steps of the data pointer and results written through pointers are values, sequences and indices here.
- Readers and writers other than the memory ones, and `tn_xdr_decode_void`'s unused arguments.
- What `com_err_va` prints, the verbosity level, and the process ending behind `abort`.
- A handler that keeps the pointer to `exception_details` while a later throw overwrites the buffer: handlers get the message as a value.
- `tn_strprintf`, `tn_strscanf`, `tn_strftime` and their variants: formatting is done by the C library.
- `tn_strdup`, `tn_strdupmem`, `tn_cstr2str`, `tn_strchr`, `tn_strrchr`: one copy or one search each, which would only add easy members.
- Overflow of the sums of lengths in `tn_strcat`, `tn_strcats`, `tn_strrepeat`, of the row size in `tn_strdistance` and of `elsize * declen`.
- Garbage collection: memory is never reclaimed.
- `tensile.y`, `tensile.l`, `ast.h`, `vmtypes.h` and `sequence.h`: they have no behaviour of their own.
