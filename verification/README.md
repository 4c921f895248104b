# Verified models of the oc-js native conversions, value bridge and BIOS runtime

Dafny 4.11 models of four pieces of oc-js, with proofs of what they promise. `dafny verify dfyconfig.toml`
checks the whole project.

**Numbers.** `Words` gives machine words as naturals with the bitwise operators defined bit by bit, and proves
how shifts, masks and two's complement relate to arithmetic. `Doubles` reads 64-bit patterns as IEEE 754-2008
binary64 numbers (section 3.4) and assigns each finite one its real value; bit patterns of positive doubles are
ordered as their values, so a value and a sign have one encoding. `Conversions` follows the C++ template that
turns a double into an unsigned or signed integer of any width up to 64, and proves it against ECMA-262 6th
edition, sections 7.1.5 to 7.1.10: 0 for NaN and the infinities, otherwise the residue of sign(d) * floor(|d|),
with the floor taken on real numbers. `ConversionLaws` relates widths, signs, `ToInteger` and the int32 fast
paths. `Date` is `TimeClip`. `Arm` is an interpreter for the ARM instructions of the assembly version, holding
the routine as 28 instructions with resolved labels; `ArmConversion` proves that every run of it, from any
contents of the scratch registers, ends with what the portable template returns.

**Values in the JVM.** `JsValue` is the native value tree. `Jvm` is a Java heap (a map from references to
objects) with a table of live local references and the JNI calls the bridge uses; where Java or C++ leaves an
order open (key sets, unordered maps) the model picks one nondeterministically. `Denotation` says which tree an
object stands for, proves that it is unique, and that an object has a tree exactly when every walk below it ends
in a well-formed object and meets no object twice. `JvmConversion` holds `toJVM` and `fromJVM` as methods over
that heap, `Access` says the same in terms of access paths, and `JvmRoundTrip` what the two conversions promise
together.

**Events and files.** `Registry` is the meaning of registering, deregistering and emitting on a map from names
to handler sequences, where an emit works on a snapshot. `EventEmitter` is the emitter with its live, shared
arrays; every method is proved to refine `Registry`, for handlers that themselves register, deregister and emit
to any depth. A run is given by a finite tree of actions: the i-th body of an emit is what its i-th call does.
`HandleReader` is the chunked file reader of the BIOS.

**String builder.** `StringBuilder` is the bounded character buffer of double-conversion. The assertions of the
source are the preconditions of the methods, and a theorem says exactly when any sequence of calls, `Reset` and
`Finalize` among them, meets them all.

Two properties one might expect are false of the code and are stated with their exact condition:
`Registry.DeregisterUndoesOn` (taking back a registration also removes earlier registrations of the same handler
under that name) and `HandleReader.WholeFileIff` (a component that answers a read with nothing before the end of
the file has its text cut short).

## Model

| member | source | states |
|---|---|---|
| Doubles.EncodeFields | native/include/mozilla/FloatingPoint.h:98-155 | sign, exponent and fraction put together into a pattern are found again in it |
| Doubles.FieldsEncode | native/include/mozilla/FloatingPoint.h:98-155 | every pattern is the encoding of its own three fields: all 64 bits are accounted for |
| Doubles.IntegralOfFields | native/include/js/Conversions.h:270-277 | sign(d) * floor(abs(d)), defined on the real value, equals the significand shifted by the exponent with the sign applied |
| Doubles.MagnitudeOrder | native/include/mozilla/FloatingPoint.h:98-155 | non-negative patterns are ordered as the real numbers they encode, across subnormals and every change of exponent |
| Doubles.EncodingUnique | native/include/mozilla/FloatingPoint.h:98-155 | two finite doubles of equal value and sign are the same bits; only zero has both signs |
| Doubles.PatternClasses | native/include/mozilla/FloatingPoint.h:98-155 | read as numbers without the sign bit, finite patterns lie below that of infinity and NaNs above it |
| Conversions.ToUnsignedInteger | native/include/js/Conversions.h:282-360 | for every pattern and every width up to 64 the result is 0 for NaN and infinities, otherwise the integer part modulo 2^width, within range; it differs from the integer part by a multiple of 2^width; shift amounts stay below 64 |
| Conversions.ToSignedInteger | native/include/js/Conversions.h:362-371 | the result lies in the signed range and differs from the integer part by a multiple of 2^width; it is 0 if the exponent field is all ones |
| Conversions.SmallMagnitude | native/include/js/Conversions.h:297-301 | a negative exponent, subnormals and zeros included, means the conversion is 0 |
| Conversions.LargeMagnitude | native/include/js/Conversions.h:305-314 | an exponent of at least 52 + width means the conversion is 0, NaN and infinities included |
| Conversions.ShiftedAgrees | native/include/js/Conversions.h:326-349 | below the implicit one, the shifted raw bits agree with floor(abs(d)), so what is masked off is only sign and exponent |
| Conversions.FloorRange | native/include/js/Conversions.h:326-349 | the implicit one is the leading bit of floor(abs(d)), so it matters only if the exponent is below the width |
| Conversions.ResultOfShifted | native/include/js/Conversions.h:316-355 | masking and adding the implicit one below the width, and nothing above it, both give floor(abs(d)) modulo 2^width |
| Conversions.WrapIsResidue | native/include/mozilla/WrappingOperations.h:54-83 | wrapping the unsigned residue of n gives the residue of n in the signed range |
| ConversionLaws.ModularUnique | native/include/js/Conversions.h:270-277 | the conversion of a finite double is the only number in range that differs from the integer part by a multiple of 2^width, and 0 for NaN and infinities |
| ConversionLaws.SignedModularUnique | native/include/js/Conversions.h:362-371 | the same for the signed conversion and the signed range, at every width |
| ConversionLaws.SignedResidueUnique | native/include/js/Conversions.h:362-371 | every integer has exactly one representative in the signed range that differs by a multiple of 2^width |
| ConversionLaws.NarrowFromWide | native/include/js/Conversions.h:530-555 | for all doubles and all pairs of widths a narrow conversion is the wide one modulo the narrow width, and a narrow signed one is the wide signed one taken into the narrow signed range |
| ConversionLaws.NegateModular | native/include/js/Conversions.h:357-359 | flipping the sign bit of any double negates its conversion modulo 2^width |
| ConversionLaws.FloorDouble | native/include/js/Conversions.h:152 | floor of a positive double is a double and equals the real floor exactly |
| ConversionLaws.CeilDouble | native/include/js/Conversions.h:152 | ceil of a negative double is a double and equals the real ceiling exactly |
| ConversionLaws.ToIntegerExact | native/include/js/Conversions.h:140-153 | on finite doubles ToInteger returns the integer part without rounding and with the sign kept, and no other double has that value and sign |
| ConversionLaws.ToIntegerNonFinite | native/include/js/Conversions.h:145-150 | ToInteger of every NaN is +0 and the infinities stay, told apart by the fields and by the numeric pattern |
| ConversionLaws.ToIntegerIdempotent | native/include/js/Conversions.h:140-153 | applying ToInteger twice is applying it once, for NaN and infinities too |
| ConversionLaws.ToIntegerFirst | native/include/js/Conversions.h:140-153 | ToInteger before a conversion never changes its result, at any width |
| ConversionLaws.EncodeIntExact | native/include/js/Conversions.h:156-247 | every integer of at most 53 bits has a finite double of exactly its value |
| ConversionLaws.Int32IsDouble | native/include/js/Conversions.h:156-247 | every int32 equals some finite double |
| ConversionLaws.FastPathAgrees | native/include/js/Conversions.h:156-247 | casting an int32 directly to any of the eight types agrees with the bit-level conversion of every double equal to it |
| Arm.Run | native/include/js/Conversions.h:397-498 | all branches go forward, so a run from any address reaches the end of the routine |
| Arm.Step | native/include/js/Conversions.h:397-498 | each instruction moves to a later address of the routine |
| ArmConversion.ExtractExponent | native/include/js/Conversions.h:397-422 | the first six instructions leave the unbiased exponent and the implicit one, or jump to the zero exit exactly for negative exponents |
| ArmConversion.ClampedShift | native/include/js/Conversions.h:430-442 | forcing long amounts into 32 to 255 makes the 8-bit register shift equal to the unlimited left shift for every exponent that can occur |
| ArmConversion.ShiftLower | native/include/js/Conversions.h:428-449 | the lower word ends as its own share of the shifted significand, for either direction of the shift |
| ArmConversion.ShiftUpper | native/include/js/Conversions.h:463-479 | the upper word ends as its own share of the shifted significand, with sign and exponent bits gone |
| ArmConversion.JoinedIsFloor | native/include/js/Conversions.h:487 | the or of the two shares is floor(abs(d)) modulo 2^32 for every exponent |
| ArmConversion.Deliver | native/include/js/Conversions.h:487-492 | inverting by the spread sign and adding the sign bit negates in two's complement exactly for negative doubles |
| ArmConversion.RunIsModular | native/include/js/Conversions.h:377-503 | from any scratch registers the run on any double ends with the 32-bit conversion of ECMA-262 in the result register |
| ArmConversion.ToSignedInteger32 | native/include/js/Conversions.h:377-503 | executing the routine returns the signed 32-bit conversion of every double: an int32 that differs from the integer part by a multiple of 2^32, 0 for NaN and infinities |
| ArmConversion.CompareConversions | native/include/js/Conversions.h:362-503 | the assembly specialisation and the portable template return the same integer on every double |
| Date.TimeClipExact | native/include/js/Date.h:103-112 | a clipped time is valid exactly for finite times of magnitude at most 8.64e15, and is then their integer part and never negative zero; every other time gives the NaN with all bits set |
| Date.TimeClipOfInt | native/include/js/Date.h:103-112 | a whole number of milliseconds is kept bit for bit exactly up to 8640000000000000 on either side of the epoch |
| Date.TimeClipEdges | native/include/js/Date.h:105-107 | the last valid and the first invalid millisecond on both sides |
| Date.TimeClipIdempotent | native/include/js/Date.h:103-112 | clipping a clipped time changes nothing, invalid times included |
| Date.TimeClipSame | native/include/js/Date.h:103-112 | two times in range clip to the same bits exactly if they have the same integer part |
| Date.TimeClipMonotone | native/include/js/Date.h:103-112 | clipping never reorders valid times |
| JvmConversion.ReferencesLeft | native/src/JSValue.cpp:113-225 | the references left, in numbers: one per string, array and byte array, one per map written and three per map read, and what the contained values leave |
| JsValue.WeightOfKey | native/src/JSValue.cpp:210-218 | a sum over the entries of a map does not depend on the order of visits |
| Jvm.Env.Put | native/src/JSValue.cpp:215 | HashMap.put compares keys by content, keeps the first key object and returns a replaced value as a local reference |
| Jvm.Env.ToArray | native/src/JSValue.cpp:151-152 | the array of a key set lists every key exactly once, in some order |
| Denotation.ToJByte | native/src/JSValue.cpp:206 | a byte written to Java is the same number modulo 256 |
| Denotation.FromJByte | native/src/JSValue.cpp:146 | a byte read from Java is the same number modulo 256 |
| Denotation.SameBytesUnique | native/src/JSValue.cpp:142-148 | byte arrays that agree byte by byte modulo 256 determine each other |
| Denotation.DenotesUnique | native/src/JSValue.cpp:113-177 | an object stands for at most one value, whatever its graph shares |
| Denotation.RankedUnfolds | native/src/JSValue.cpp:113-177 | a well-formed graph with a rank that falls from every object to its contents has a tree unfolding, in which unknown classes are null |
| Denotation.AcyclicIffRanked | native/src/JSValue.cpp:114 | no walk below an object meets an object twice or ends in a malformed one exactly if the graph has such a rank; for a cycle-free graph the rank is constructed |
| Denotation.UnfoldsIffAcyclic | native/src/JSValue.cpp:114 | an object stands for a value exactly when every walk below it ends in a well-formed object that the walk did not meet before |
| JvmConversion.ToJVM | native/src/JSValue.cpp:179-225 | no existing object changes; the new objects with the null object are closed and hold the value, bytes modulo 256 and every null as the one null object; one local reference beyond the result remains per string, array, byte array and map node |
| JvmConversion.ArrayToJVM | native/src/JSValue.cpp:193-202 | the same for the loop that fills an object array while its elements are being allocated |
| JvmConversion.MapToJVM | native/src/JSValue.cpp:210-221 | the same for the loop over an unordered map, whatever order it takes |
| JvmConversion.WriteEntry | native/src/JSValue.cpp:213-217 | one round binds the key to the written value and leaves no local reference of its own |
| JvmConversion.FromJVM | native/src/JSValue.cpp:113-177 | terminates on every graph without a cycle and returns its tree unfolding; changes no object; leaves one local reference per string, array and byte array and three per map |
| JvmConversion.ArrayFromJVM | native/src/JSValue.cpp:131-141 | the same for the loop over array elements |
| JvmConversion.MapFromJVM | native/src/JSValue.cpp:149-171 | the same for the loop over the key array, whatever order the machine lists the keys in |
| JvmConversion.KeysOf | native/src/JSValue.cpp:150-152 | reading the keys costs three local references and allocates without touching old objects |
| JvmConversion.ReadEntry | native/src/JSValue.cpp:157-167 | one round yields the key's code units and the value's unfolding and leaves no local reference of its own |
| JvmConversion.ReadElement | native/src/JSValue.cpp:136-138 | one round yields the element's unfolding and leaves no local reference of its own |
| JvmConversion.RendersDenotes | native/src/JSValue.cpp:179-225 | what toJVM makes of a value is a graph that stands for it |
| Access.DenotesIffAgrees | native/src/JSValue.cpp:113-177 | an object stands for a value exactly if following references along any path of indexes and keys finds an object with the content that the value has at that path, or nothing where it has nothing |
| Access.WrittenAt | native/src/JSValue.cpp:179-225 | at every path into what toJVM wrote there is the content of the value, and the null object exactly where the value is null |
| JvmRoundTrip.WrittenIsReadable | native/src/JSValue.cpp:179-225 | what toJVM builds has no cycle and unfolds to the value it was given and to no other |
| JvmRoundTrip.RoundTrip | native/src/JSValue.cpp:113-225 | toJVM then fromJVM returns an equal value for every tree of the seven kinds, with the total count of local references left |
| JvmRoundTrip.Rebuild | native/src/JSValue.cpp:113-225 | fromJVM then toJVM gives, for every graph without a cycle, an object, new or the null object, that stands for exactly what the first one does, even if the first graph shares objects |
| JvmRoundTrip.ReachesOnlyNew | native/src/JSValue.cpp:179-225 | every walk from the result of toJVM stays in new objects and the null object |
| Registry.EmitCallsSnapshot | os.js/bios/bios.ts:217-219 | the calls an emit makes itself are exactly the handlers of its snapshot, once per registration and in order, however calls nest |
| Registry.RunConcat | os.js/bios/bios.ts:204-230 | a run goes on from the registry its first part leaves, and its trace is the two traces in order |
| Registry.ActionInRun | os.js/bios/bios.ts:204-230 | an action in the middle of a run acts on the registry left by the actions before it |
| Registry.RunOn | os.js/bios/bios.ts:210-215 | in a run, on puts the handler behind those registered under the name, changes no other name and calls nothing |
| Registry.RunDeregister | os.js/bios/bios.ts:221-229 | in a run, deregister leaves exactly the other handlers in their order, unbinds the name exactly if none is left, changes no other name and calls nothing |
| Registry.RunEmit | os.js/bios/bios.ts:217-219 | in a run, emit calls each handler registered at its start once and in order with its arguments, and leaves the registry as if the bodies of those calls had run one after another |
| Registry.CallInEmit | os.js/bios/bios.ts:218 | the i-th call of an emit finds the registry as the earlier bodies leave it and runs the i-th body between its entry and its return |
| Registry.RunNested | os.js/bios/bios.ts:217-219 | whatever runs inside a handler is properly nested in that call |
| Registry.WithoutCounts | os.js/bios/bios.ts:223 | filtering removes every registration of the handler and no registration of any other |
| Registry.WithoutConcat | os.js/bios/bios.ts:223 | filtering works piece by piece, so the handlers that stay keep their order |
| Registry.DeregisterIdempotent | os.js/bios/bios.ts:221-229 | deregistering twice is deregistering once |
| Registry.DeregisterUndoesOn | os.js/bios/bios.ts:210-229 | the function returned by on restores the registry exactly if the handler was not registered under that name before |
| Registry.SecondRegistrationTakesFirst | os.js/bios/bios.ts:210-229 | registering a handler a second time and taking that back leaves it unregistered |
| Registry.RunProper | os.js/bios/bios.ts:224-228 | no run ever binds a name to an empty sequence |
| EventEmitter.JsArray.FilterOut | os.js/bios/bios.ts:223 | the filter loop makes a new array with the other handlers in order |
| EventEmitter.Emitter.On | os.js/bios/bios.ts:210-215 | appends in place to the array object already stored for the name, or stores a new one; other names keep theirs; arrays only grow, stay unshared and non-empty; the result is bound to name and handler |
| EventEmitter.Emitter.Deregister | os.js/bios/bios.ts:221-229 | removes the handler from that name by replacing its array and changes no stored array |
| EventEmitter.Emitter.Emit | os.js/bios/bios.ts:217-219 | under reentrant handlers the registry and the trace become those of the snapshot semantics, and the direct calls are the handlers registered when the emit began |
| EventEmitter.Emitter.ForEach | os.js/bios/bios.ts:218 | walking an array that may grow meanwhile visits exactly the elements it had at the start |
| EventEmitter.Emitter.RunAll | os.js/bios/bios.ts:204-230 | for every sequence of operations the emitter refines a map from names to handler sequences |
| HandleReader.Gather | os.js/bios/bios.ts:317-326 | the buffer has the size of all chunks together and holds them in order; every write is in bounds |
| HandleReader.SetAt | os.js/bios/bios.ts:324 | a chunk replaces exactly the bytes at its offset |
| HandleReader.ReadHandleToString | os.js/bios/bios.ts:310-328 | terminates and returns the decoding of all chunks before the first empty or missing one |
| HandleReader.ReadFileToString | os.js/bios/bios.ts:303-308 | the same for a file, with the set of open handles as before |
| HandleReader.ByteOfChunk | os.js/bios/bios.ts:321-325 | every byte of every chunk stands behind all bytes of the earlier chunks |
| HandleReader.StopsAtFirst | os.js/bios/bios.ts:313-316 | reading takes all answers before the first missing or empty one, and that one, and no more |
| HandleReader.ReadThenUnread | os.js/bios/bios.ts:313-316 | what is read and what is left make up the content, with nothing lost, repeated or reordered |
| HandleReader.WholeFileIff | os.js/bios/bios.ts:313-316 | the whole content is read exactly if the component, once it has answered a read with nothing, never answers with data again |
| HandleReader.EmptyChunkTruncates | os.js/bios/bios.ts:314 | a file delivered with an empty chunk in the middle is cut short |
| HandleReader.ChunkingIrrelevant | os.js/bios/bios.ts:310-328 | components that answer with nothing only at the end give the same bytes for the same content, however they chunk it |
| StringBuilder.StrLen | native/include/double-conversion/utils.h:170-174 | the length of a C string is the position of its first NUL |
| StringBuilder.RunPassesIff | native/include/double-conversion/utils.h:222-292 | after a Reset, whatever state the builder was in, all assertions of a run of appending calls and of Finalize hold exactly if every call has legal arguments and the text is shorter than the buffer; the buffer then holds the text and its NUL |
| StringBuilder.CallsPassIff | native/include/double-conversion/utils.h:222-292 | for every sequence of calls, Reset and Finalize among them in any order, all assertions hold exactly if every call fits by the length written so far and whether the builder is finalized; the buffer then holds the text since the last Reset |
| StringBuilder.CallMeaning | native/include/double-conversion/utils.h:238-283 | one call passes its assertions exactly if its arguments are legal, the builder is not finalized and there is room: characters and padding may fill the buffer, strings leave a byte for the NUL, empty padding and Reset always pass; its effect on the text follows |
| StringBuilder.AddStringPasses | native/include/double-conversion/utils.h:170-174 | AddString passes exactly if its length fits an int and leaves a byte in the buffer |
| StringBuilder.FullBuffer | native/include/double-conversion/utils.h:243-283 | the edges: characters may fill the buffer, a string may not, and only a buffer with a byte left can be finalized |
| StringBuilder.Builder.Reset | native/include/double-conversion/utils.h:238 | puts the position back to the start, also after Finalize, leaving the memory as it is |
| StringBuilder.Builder.AddCharacter | native/include/double-conversion/utils.h:243-247 | writes the character at the position and advances it, leaving the rest of the buffer |
| StringBuilder.Builder.AddSubstring | native/include/double-conversion/utils.h:257-262 | writes the first n characters at the position and advances it by n, leaving the rest of the buffer |
| StringBuilder.Builder.AddString | native/include/double-conversion/utils.h:251-253 | writes the string up to its NUL |
| StringBuilder.Builder.AddPadding | native/include/double-conversion/utils.h:267-271 | adds the character count times, and nothing for a count that is not positive |
| StringBuilder.Builder.Finalize | native/include/double-conversion/utils.h:274-283 | puts the NUL at the position, marks the builder finalized and returns the buffer |
| StringBuilder.Builder.PerformAll | native/include/double-conversion/utils.h:222-292 | performing any sequence of calls that fits breaks no assertion and leaves the buffer as the calls mean |
| StringBuilder.Build | native/include/double-conversion/utils.h:222-292 | a legal run whose text is shorter than the buffer breaks no assertion and leaves a C string of exactly that text |

## Left out

- The slow paths behind the conversions of engine values (`ToInt32Slow` and its siblings), `ToNumber`, `ToPrimitive`: their bodies are not in the repository.
- `ToUint8(double)` as declared, whose result type is signed; its unsigned 8-bit conversion is covered by width 8.
- Integer promotion of 8- and 16-bit types inside the template: arithmetic is taken modulo 2^width at once, which gives the same stored results.
- `floor` and `ceil` on the half of the line where `ToInteger` does not call them.
- Conversions.ToUnsignedInteger: takes the width as a number from 1 to 64 where the source has the four unsigned types.
- The 32-bit encodings of the ARM instructions, register allocation and the flags other than N, which the routine does not read.
- JNI exceptions, failed allocations, class and method lookup, and null references passed to `fromJVM`; object arrays and maps read by `fromJVM` hold no null elements and only string keys.
- JvmConversion.FromJVM: covers no graph with a cycle, on which the source does not terminate.
- JvmConversion.ToJVM: values are finite trees, so sharing between native values, and null pointers among them, are not represented.
- Conversion between UTF-8 and UTF-16 in `JSStringValue`, and `TextDecoder`, which is a parameter of the file reader.
- Handlers that throw during an emit; every finished run of handlers that return is covered.
- The argument lists and the receiver of handlers beyond their identity.
- HandleReader.ReadHandleToString: the component has finitely many answers for a handle, after which it has none.
- `int` overflow of `position_ + n` in `AddSubstring`, overlap of its source with the buffer, and the destructor of `StringBuilder`.
- Component and computer calls, crash handling, compilation and the boot sequence of the BIOS: host calls and thin wrappers.
