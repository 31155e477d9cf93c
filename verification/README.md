# Verified models of oNTL algorithms

oNTL is a C++ library for native and kernel-mode Windows code. Most of it declares system interfaces; this project models the parts that compute something and proves what they promise. `Common` holds what several modules share; each other module follows one component:

- `BlockChain`, `PadBuffer`, `Sha1Spec`, `Sha1`, `Sha1Example`: the optimised SHA-1 of `ntl/crypto/sha.hxx`. `Sha1Spec` is section 6.1.2 of FIPS 180-2 written down independently of the code; the class `Sha1.Hasher` keeps its state byte-swapped, uses negated round constants and rewritten Ch and Maj, and is proved to compute the same digest for every message. `Sha1Example` derives the published digest of "abc" from both.
- `Rtti`: the `dynamic_cast` search. One scan of a flattened class hierarchy is proved equal to a search of the class tree, for every tree and every query.
- `LinkedRing`: intrusive doubly linked rings and the owner-counting pointer that lives in one, as heap objects with aliased fields.
- `DeviceStack`: an I/O request packet travelling down a stack of devices, for every mix of drivers that skip and drivers that fill a stack location.
- `Lookaside`: the lookaside allocator as interleaved atomic steps of any number of threads, and its two methods as one thread runs them undisturbed.
- `ExitTable`: the exit-handler tables, filled by concurrent registrations and walked backwards.
- `Checksum`: the ICMP checksum against the one's-complement sum of section 1 of RFC 1071.
- `DecimalText`, `HexText`: number and byte printers that work in place in a buffer, and the hexadecimal reader.
- `ByteScale`: scaling a byte count, rounding its fraction, and the field it is printed in.
- `FileNames`, `ListMatching`, `DriverList`: a name list written into a driver image by one program and parsed by another, the path comparison both use, and the matching of two lists by it.
- `BootMatching`: both ends of that list together, from the drivers the launcher lists to the drivers the filter leaves to be disabled.
- `ArrayUnwind`: construction and destruction of arrays when a constructor throws.

Pointers into buffers are indices. Fixed-width integers are bit-vectors in the SHA-1 modules; elsewhere they are integers with the wrap-around written out where the code can reach it.

## Where the code and its documentation differ

The model follows the code. Each of these has a lemma or a postcondition that gives the exact condition:

- `swap` says nothing about neighbours, and it breaks the ring when one node follows the other (`LinkedRing.Link.Swap`).
- The destructor of `linked_ptr` leaves a ring of two untouched (`LinkedRing.Link.Destroy`), and `unique` disagrees with the count in two ways: it holds in a ring of two owners, and it fails for the only owner in a ring with at least two null members (`LinkedRing.Link.Unique`).
- A comment asks the single-inheritance search on x64 to behave like the multiple-inheritance one; `Rtti.SingleAgainstMultiple` says when it does. The single-inheritance search never looks at where the source subobject lies.
- `to_dec` writes no numeral for the minimum of a signed type (`DecimalText.TextIsDecimal`).
- The white-space form of `from_hex` reads the character after the text when a high digit ends it (`HexText.SpacedHexToBytes`).
- The 32-bit checksum sum loses a carry from 131069 bytes on (`Checksum.NextLengthCanFail`), and the stored checksum is right exactly when the lost carries are a multiple of 65535 (`Checksum.IcmpHeader.ComputeChecksum`).
- The fraction of a scaled byte count is right up to five digits. With six, the default of a stream, the product overflows for remainders from 430 on; with seven and more the table has no power for the field that is printed; and with one or two digits it can round up to a whole unit (`ByteScale.Fraction`). The fill character is left as the stream has it, by default a space, which then stands behind the point of a small fraction (`ByteScale.FieldIsZeroPadded`).
- `at_quick_exit` spends a slot on a null or repeated handler, and the walk later meets the null pointer (`ExitTable.QuickWalkSafety`).
- The launcher compares the length of the name list in characters with the size of the block in bytes. A list of 32769 to 65536 characters is accepted, runs over the end of the block, and comes back without the names that do not fit (`DriverList.ShippedRoundTrip`, `DriverList.OverrunIsAccepted`, `DriverList.ThroughImage`).
- A name list shorter than the signature it overwrites is read back with one more entry (`DriverList.ShippedRoundTrip`).
- A driver that the launcher listed is still left to be disabled if its file name has a character outside ASCII, which a signed char widens into another number, or if it is a dump driver, whose entry is renamed (`BootMatching.FilterSameDrivers`).
- `equal_filenames` is not symmetric on names that end in a separator (`FileNames.SameFileIsEquivalence`).
- `__ehvec_dtor` cuts the element size to an int, and steps wrongly for sizes above 2^31 (`ArrayUnwind.EhvecDtor`).

## Model

| member | source | states |
|---|---|---|
| Sha1.Hasher.Hash | ntl/crypto/sha.hxx:74-78 | On any object the state becomes that of the padded message absorbed on top of the old one; on a fresh object and under 2^61 bytes the exposed bytes are the FIPS 180-2 digest |
| Sha1Example.HashAbc | ntl/crypto/sha.hxx:160-169 | The code hashes the three characters of the source's first self-test to the digest given there |
| Sha1Example.Digest | ntl/crypto/sha.hxx:160-169 | So does the reference, through all 80 words and rounds |
| Sha1.Hasher.HashBlock | ntl/crypto/sha.hxx:81-109 | One block advances the chaining value by the standard's 80 rounds and additions |
| Sha1.RunRounds | ntl/crypto/sha.hxx:83-102 | The two loops over the local 80-word array end in the working variables of the standard's recursive rounds |
| Sha1.StepIsRound | ntl/crypto/sha.hxx:92-100 | One pass with the rewritten function, the negated constant subtracted and a right rotation by 2 is one FIPS round |
| Sha1.RewrittenFIsF | ntl/crypto/sha.hxx:213-220 | The rewritten Ch and Maj are those of section 4.1.1 for every round and all words |
| Sha1.Rotations | ntl/stdlib.hxx:69-74 | The shifts of the standard are the rotations of a word by 1, 5 and 30, and the last is a right rotation by 2 |
| Sha1.NextWordIsMix | ntl/crypto/sha.hxx:98 | The schedule rotates the exclusive or of the four earlier words left by one |
| Sha1.NegatedKIsMinusK | ntl/crypto/sha.hxx:205-211 | Each constant is the negation modulo 2^32 of that of section 4.2.1 |
| Sha1Spec.Constants | ntl/crypto/sha.hxx:205-211 | They are the leading 32 bits of the square roots of 2, 3, 5 and 10 |
| Sha1.SwappedLoad | ntl/stdlib.hxx:146-153 | A word loaded by a little-endian host and byte-swapped is the standard's big-endian word |
| Sha1Spec.WordsAndBytes | ntl/stdlib.hxx:146-153 | A big-endian word is the number of its bytes in base 256, and gives them back |
| Sha1Spec.LengthFieldIsBigEndian | ntl/crypto/sha.hxx:133-134 | The length field is the length in base 256 |
| Sha1.AddResident | ntl/crypto/sha.hxx:103-107 | Adding to a byte-swapped word adds to the number it stands for |
| Sha1.Hasher.ResidentBytesAreDigest | ntl/crypto/sha.hxx:70 | The object's memory, read without conversion, is the big-endian digest of its state |
| Sha1.Hasher.Reset | ntl/crypto/sha.hxx:140-148 | The twenty bytes stored are the initial hash value of section 5.3.1 |
| Sha1.Hasher.HashCompleteBlocks | ntl/crypto/sha.hxx:111-117 | All complete blocks are absorbed in order and the remainder is ignored |
| Sha1.Hasher.HashTail | ntl/crypto/sha.hxx:119-138 | Exactly the padded last block or blocks are absorbed |
| PadBuffer.FillPad | ntl/crypto/sha.hxx:124-134 | The fill loops terminate and leave tail, one bit, zeros and length in the scratch buffer |
| PadBuffer.ZeroBytesIsLeast | ntl/crypto/sha.hxx:130-131 | The number of zero bytes is the least that section 5.1.1 allows |
| Sha1.PaddedTailLength | ntl/crypto/sha.hxx:135-136 | One final block if and only if the length modulo 64 is at most 55, otherwise two |
| Sha1.StoredSwapped64 | ntl/crypto/sha.hxx:133-134 | The swapped 64-bit store leaves the length most significant byte first |
| Sha1.TailAfterBlocks | ntl/crypto/sha.hxx:74-78 | Complete blocks and then the padded tail are the whole padded message |
| Sha1.PiecesThenTail | ntl/crypto/sha.hxx:111-138 | Any number of block-aligned pieces and then the tail give the one-shot digest |
| BlockChain.FoldPieces | ntl/crypto/sha.hxx:111-117 | Absorbing aligned pieces one by one is absorbing their concatenation, for any compression function |
| Rtti.FindInHierarchy | ntl/rtl/rtti.cpp:330-392 | On every class tree flattened in preorder with right counts, the scan returns what the search of the tree returns |
| Rtti.CastIsAllowed | ntl/rtl/rtti.cpp:354-383 | The deciding destination is refused exactly when it holds the source but is the hidden complete object, or does not hold it and is hidden or ambiguous |
| Rtti.CastIsDecided | ntl/rtl/rtti.cpp:347-391 | There is a deciding destination, or no source or no destination and a null answer |
| Rtti.AmbiguousIsRefused | ntl/rtl/rtti.cpp:353-360 | A class beside the source that is a base twice over is refused, and would be found were it not ambiguous |
| Rtti.FindMultipleInstance | ntl/rtl/rtti.cpp:330-392 | The scan with its 32-bit distances gives the answer that the first source and the last outermost destination determine |
| Rtti.ScanAnswerIsTreeCast | ntl/rtl/rtti.cpp:347-383 | Only one answer fits a flattened tree: the destination that holds the source, else the nearest earlier, else the first later one if accessible |
| Rtti.LastOuterAdvances | ntl/rtl/rtti.cpp:347-352 | Skipping by contained-base counts keeps the last destination that no destination encloses |
| Rtti.BaseFound | ntl/rtl/rtti.cpp:373-384 | When a source is met after a destination, the branches return the answer that the destination and the source determine |
| Rtti.TreeIsNested | ntl/rtl/rtti.cpp:163-180 | With right counts the ranges of a flattened tree nest |
| Rtti.FindSingleInstance | ntl/rtl/rtti.cpp:308-327 | A destination is found if and only if it is the first, a source follows, and nothing up to that source is private |
| Rtti.FoundIsPublic | ntl/rtl/rtti.cpp:314-323 | A cast is found exactly when the first destination has a source after it with no private record from there to the source, the source's own included |
| Rtti.SingleOnDistinct | ntl/rtl/rtti.cpp:308-327 | With distinct types: found exactly when strictly more derived than the source with no private entry on the way |
| Rtti.SingleAgainstMultiple | ntl/rtl/rtti.cpp:314-383 | On every chain of distinct types and for every query the two searches agree if and only if the stated condition holds of the two positions, absent types and source records elsewhere included |
| Rtti.SearchesDiffer | ntl/rtl/rtti.cpp:314-366 | A source subobject elsewhere is cast by one search and not by the other |
| LinkedRing.Link.Swap | ntl/linked_list.hxx:85-96 | The places of two nodes of any rings, singletons included, are exchanged if and only if they are the same node or neither follows the other; and every ring there was is a ring with the two exchanged if and only if that holds or it is another ring |
| LinkedRing.ExchangedRing | ntl/linked_list.hxx:86-96 | After an exchange every ring is a ring with exactly the two nodes exchanged |
| LinkedRing.ExchangeIsWellFormed | ntl/linked_list.hxx:86-96 | After an exchange next and prev are inverse everywhere |
| LinkedRing.Link.SwapOwners | ntl/linked_ptr.hxx:73-78 | Swapping two owners leaves every ring's sequence of pointers as it was |
| LinkedRing.Link.LinkBetween | ntl/linked_list.hxx:59-63 | The four fields after the assignments, whichever of the nodes coincide |
| LinkedRing.Link.LinkAfter | ntl/linked_list.hxx:65-68 | Exactly one node is inserted into the ring, right after the argument |
| LinkedRing.Link.Unlink | ntl/linked_list.hxx:80-83 | The rest of the ring closes and the node keeps its own fields |
| LinkedRing.LinkThenUnlink | ntl/linked_list.hxx:65-83 | link and then unlink restores every other member |
| LinkedRing.Link.Copy | ntl/linked_ptr.hxx:34-37 | A copied owner joins the ring right after the original |
| LinkedRing.Link.UseCount | ntl/linked_ptr.hxx:50-59 | From any member the walk terminates, visits each member once, backwards round the ring, and counts those with a pointer |
| LinkedRing.OwnersFromAnywhere | ntl/linked_ptr.hxx:50-59 | The count is the same from every member |
| LinkedRing.OwnersAreCounted | ntl/linked_ptr.hxx:50-59 | The count is the number of members whose pointer is not null |
| LinkedRing.Link.Unique | ntl/linked_ptr.hxx:61-65 | True exactly for a non-null pointer in a ring of at most two; on every ring it agrees with the count if and only if the member is alone, or the one other member is null, or there are more and the count is not one |
| LinkedRing.Link.Destroy | ntl/linked_ptr.hxx:42-48 | The others are left a ring of their own if and only if the ring did not have two members |
| DeviceStack.Send | ntl/km/device_object.hxx:229-234 | Sent to the top of any stack no higher than the packet's locations, every run keeps pointer and counter together and within the locations |
| DeviceStack.Device.GetAttachedDevice | ntl/km/device_object.hxx:229-234 | From any device of a stack the loop ends at its top |
| DeviceStack.Device.GetRootDevice | ntl/km/device_object.hxx:236-242 | From any device of a stack the loop ends at its bottom |
| DeviceStack.Device.Call | ntl/km/driver_object.hxx:59-72 | A call and the drivers below it leave the locations and the visits of the run on values |
| DeviceStack.StaysWithin | ntl/km/driver_object.hxx:64-70 | A run stays within the locations if and only if fewer drivers fill one than there are |
| DeviceStack.VisitAt | ntl/km/irp.hxx:402-422 | The i-th driver is called at the start less one location for each driver above that filled one, with pointer and counter in step |
| DeviceStack.NextVisit | ntl/km/irp.hxx:412-422 | Skipping and calling hands down the same location, filling hands down the next |
| DeviceStack.CompletionIsKept | ntl/km/irp.hxx:424-434 | A completion routine and request set by one driver survive everything the drivers below do |
| DeviceStack.AboveIsKept | ntl/km/irp.hxx:407-434 | Locations above the current one never change, and of the current one only the device |
| DeviceStack.LowestDeviceIsNamed | ntl/km/driver_object.hxx:69-70 | Each location ends up naming the lowest device called with it |
| DeviceStack.Irp.SetCompletionRoutine | ntl/km/irp.hxx:424-434 | Only the next location is written: it gets routine, context and flags, or a null routine with neither |
| Lookaside.AllRuns | ntl/km/lookaside_list.hxx:119-142 | In every interleaving each live entry is in exactly one place and the list is at most threads - 1 longer than its depth |
| Lookaside.BoundIsReached | ntl/km/lookaside_list.hxx:131-142 | For every depth and number of threads some run reaches that length |
| Lookaside.StepKeepsPlaces | ntl/km/lookaside_list.hxx:119-142 | No step loses or duplicates an entry |
| Lookaside.StepKeepsDepth | ntl/km/lookaside_list.hxx:134-136 | List length and pending pushes together stay below depth plus threads |
| Lookaside.OneOwner | ntl/km/lookaside_list.hxx:119-142 | What one thread holds no other thread holds, frees or can pop |
| Lookaside.ListIsDistinct | ntl/km/lookaside_list.hxx:135 | No entry is on the list twice |
| Lookaside.LookasideList.Allocate | ntl/km/lookaside_list.hxx:119-129 | Uninterrupted, the method is the run of its steps; the pool is asked exactly when the list is empty, and the counters say so |
| Lookaside.LookasideList.Free | ntl/km/lookaside_list.hxx:131-142 | Uninterrupted, the method is the run of its steps; the entry goes to the pool exactly when the list is full |
| ExitTable.EachHandlerOnce | ntl/rtl/crt.cpp:71-92 | After any interleaving of any number of calls the exit walk is safe if and only if at most 4096 of them passed a handler, and then runs each of those once, last slot first |
| ExitTable.EarlierRunsLater | ntl/rtl/crt.cpp:71-92 | A registration that has returned before another begins gets the smaller slot and its handler runs later, whatever other calls do meanwhile |
| ExitTable.SequentialWalk | ntl/rtl/crt.cpp:71-92 | Calls made one after another finish, and their handlers run once each in the reverse order of registration |
| ExitTable.NoSharedSlot | ntl/rtl/crt.cpp:71-79 | No two calls ever hold the same slot |
| ExitTable.WalkSafety | ntl/rtl/crt.cpp:81-92 | At any moment the walk is safe if and only if the table has not overflowed and no call is between its reservation and its store |
| ExitTable.StepKeepsInv | ntl/rtl/crt.cpp:71-79 | Every step keeps slot numbers, recorded order and table contents in agreement |
| ExitTable.ExitTables.Onexit | ntl/rtl/crt.cpp:71-79 | From one thread the table holds the non-null handlers in the order registered |
| ExitTable.ExitTables.Atexit | ntl/rtl/crt.cpp:148-151 | Success exactly for a non-null handler while there is a slot |
| ExitTable.ExitTables.AtQuickExit | ntl/rtl/crt.cpp:153-166 | The k-th call spends slot k, which stays null for a null or repeated handler |
| ExitTable.ExitTables.Doexit | ntl/rtl/crt.cpp:81-104 | The handlers run in the reverse of slot order |
| ExitTable.ExitWalkSafety | ntl/rtl/crt.cpp:81-92 | One thread's exit walk is safe if and only if at most 4096 handlers were registered, and then it walks exactly those |
| ExitTable.QuickWalkSafety | ntl/rtl/crt.cpp:93-104 | The quick-exit walk is safe if and only if every handler was non-null, none was passed twice and they fit |
| Checksum.IcmpHeader.ComputeChecksum | samples/pingn.cpp:150-167 | For every header and body the finished packet sums to 0xFFFF if and only if the carries lost by the 32-bit sum are a multiple of 65535; if none is lost the complement of the one's-complement sum is stored |
| Checksum.OneCharacter | samples/pingn.cpp:150-167 | An empty header with the body "H" gets 0xB7FF |
| Checksum.Octet | samples/pingn.cpp:159-161 | A negative char is 256 more as an unsigned one, any other char is itself |
| Checksum.SendChecked | samples/pingn.cpp:150-167 | Every packet with a body of at most 131068 bytes, odd lengths included, passes the receiver's test |
| Checksum.NeverOverflows | samples/pingn.cpp:153-162 | Up to that length the sum fits in 32 bits |
| Checksum.NextLengthCanFail | samples/pingn.cpp:156-162 | One byte more can lose a carry |
| Checksum.AddBody | samples/pingn.cpp:156-162 | The loop adds the body's 16-bit words modulo 2^32, an odd last byte as the high half of a word |
| Checksum.FoldedLow | samples/pingn.cpp:164-165 | Two folds are enough for every 32-bit sum |
| Checksum.CompletesSum | samples/pingn.cpp:164-166 | The stored complement completes the sum exactly under the stated condition |
| Checksum.OnesSumIsRemainder | samples/pingn.cpp:156-166 | The end-around-carry sum of RFC 1071 is the sum modulo 65535 with 0 only for all zeros |
| Checksum.IcmpHeader.Encode | samples/pingn.cpp:137-144 | encode then decode gives the number back and touches only its two bytes |
| DecimalText.ToDec | ntl/format.hxx:144-167 | For every width and value the buffer holds the text and its terminator, within 22 characters, and nothing else changes |
| DecimalText.TextIsDecimal | ntl/format.hxx:150-157 | The text is the decimal numeral if and only if the value is not the signed minimum |
| DecimalText.TypeRange | ntl/format.hxx:144-148 | The values of a type of so many bits are bounded by powers of two |
| DecimalText.DecimalIsTheCanonicalText | ntl/format.hxx:146-167 | The numeral parses back to the value and is the only canonical text that does |
| DecimalText.FitsTwenty | ntl/format.hxx:182-183 | No text is longer than twenty characters |
| DecimalText.ReverseRange | ntl/format.hxx:160-165 | The closing loop reverses its range in place |
| HexText.BytesToHex | ntl/format.hxx:43-56 | As many bytes as fit are written as pairs of digits, with a terminator exactly if there is room |
| HexText.HexToBytes | ntl/format.hxx:93-118 | As many pairs as fit are decoded, and nothing else changes |
| HexText.DigitTables | ntl/format.hxx:22-77 | The sixteen digits are written in upper case and read in either case, and any other character reads as 0 |
| HexText.BytesThroughHex | ntl/format.hxx:43-118 | Writing and reading back recovers every byte that both buffers have room for |
| HexText.IntToHex | ntl/format.hxx:30-41 | The digits of an integer decode to its big-endian bytes |
| HexText.BigEndianValue | ntl/format.hxx:35-39 | Those bytes are the two's complement representation of the value |
| HexText.SpacedHexToBytes | ntl/format.hxx:79-91 | The white-space form decodes pair by pair, skips spaces in front of a pair, and reads past the text exactly when a high digit ends it |
| HexText.ScannedIsUnhexOfStripped | ntl/format.hxx:79-91 | With spaces only between pairs that is the plain decoding of the text without them |
| HexText.HexIsPaired | ntl/format.hxx:43-91 | The white-space form reads back what to_hex has written |
| HexText.PairedConcat | ntl/format.hxx:79-91 | Texts of pairs and spaces may be joined, and so is what they decode to |
| ByteScale.Scale | samples/psinfo2/psinfo.cpp:74-80 | The whole part is the quotient by the power of 1024, below 1024, the last remainder is right, and the prefix is in its table if and only if the count is below 2^50 |
| ByteScale.Fraction | samples/psinfo2/psinfo.cpp:89-95 | The number is the fraction rounded half up for up to five digits and the wrapped product so rounded from six on; in a field as wide as the precision it is right to half a unit of its last digit if and only if the precision is at most 5, or 6 and the remainder below 430, or there is no remainder; it is below a whole unit but for one digit from remainder 973 on and two from 1019 on |
| ByteScale.FieldIsZeroPadded | samples/psinfo2/psinfo.cpp:93-95 | The field is the number with zeros in front if and only if the stream fills with '0' or the number has as many digits as the precision |
| ByteScale.ZeroPaddedIsFraction | samples/psinfo2/psinfo.cpp:93-95 | With zeros in front a fraction below a whole unit is exactly `precision` digits that parse back to it |
| FileNames.EqualFilenames | samples/zenadriver/src/utils.hxx:7-23 | The backward loop compares what follows the last separator, without case and without one NUL at the end |
| FileNames.CaseIsIgnored | samples/zenadriver/src/utils.hxx:17-19 | Changing the case of ASCII letters in either name never changes the answer |
| FileNames.FilesDecide | samples/zenadriver/src/utils.hxx:7-23 | Two paths are equal if and only if their file names are, up to the case of ASCII letters, whatever the directories and a NUL at the end |
| FileNames.SameFileIsEquivalence | samples/zenadriver/src/utils.hxx:7-23 | Transitive always, reflexive exactly on names that do not end in a separator, and symmetric where the left name is one |
| FileNames.NotSymmetric | samples/zenadriver/src/utils.hxx:10-16 | Two names that are equal in one order only |
| ListMatching.RemoveMatches | samples/zenadriver/src/driver.cpp:285-301 | For any comparison by keys both lists lose equal numbers in equal pairs and no equal pair is left; of each class each list keeps its excess, the earliest names going first, so that both results are determined |
| DriverList.Filter.MatchBootDrivers | samples/zenadriver/src/driver.cpp:285-301 | The same for the comparison that equal_filenames computes, on any two lists of names: of each class the first are taken off both lists |
| DriverList.Filter.BuildWhitelist | samples/zenadriver/src/driver.cpp:49-90 | The list is built once, from the strings of the block up to an empty one or the end, with the dump drivers renamed |
| DriverList.DumpPath | samples/zenadriver/src/driver.cpp:79-84 | A path to a dump driver loses exactly its five characters "dump_" and then names the driver itself |
| DriverList.KeptName | samples/zenadriver/src/driver.cpp:79-84 | A path to dump_atapi.sys or dump_WMILIB.SYS keeps its directory and the rest of the file name, and every other name is kept as it is |
| DriverList.SerialiseList | samples/zenadriver/src/launcher.cpp:281-294 | The two passes write every name followed by a NUL |
| DriverList.BuildDriverImage | samples/zenadriver/src/launcher.cpp:307-323 | Accepted exactly up to 65536 characters; each is stored as one wide character from the block on, and nothing else changes |
| DriverList.ReadBack | samples/zenadriver/src/driver.cpp:57-88 | Parsing a block gives the written names and then whatever follows them |
| DriverList.RoundTrip | samples/zenadriver/src/driver.cpp:57-88 | Parsing gives exactly the written names if and only if nothing, a NUL, or no NUL at all follows |
| DriverList.ReadBackCut | samples/zenadriver/src/driver.cpp:57-88 | A list cut off anywhere is read as the names that lie whole before the cut |
| DriverList.ShippedRoundTrip | samples/zenadriver/src/driver.cpp:36-38 | In the block as shipped a list of any accepted length comes back if and only if it covers the signature and fits the block; otherwise there is one name more, or only the names that lie whole within the block |
| DriverList.OverrunIsAccepted | samples/zenadriver/src/launcher.cpp:309-321 | One name of 40000 characters is accepted and nothing of it is read |
| DriverList.ThroughImage | samples/zenadriver/src/launcher.cpp:281-323 | From the launcher's list through the image to the driver's list: refused and nothing changes, or the entries are the names under the same condition, and what does not fit the block is written behind it |
| BootMatching.OwnEntry | samples/zenadriver/src/utils.hxx:7-23 | A driver is equal to its own entry in the white list if and only if it has a file name, all in ASCII, that is not a dump driver's |
| ListMatching.OnlyLeftOf | samples/zenadriver/src/driver.cpp:285-301 | The number left of each class and the order in which names go determine what is left |
| BootMatching.FilterSameDrivers | samples/zenadriver/src/driver.cpp:272-301 | When the driver finds the drivers the launcher listed, exactly those that are not equal to their own entry are left, in order |
| ArrayUnwind.EhvecCtor | ntl/rtl/eh.cpp:506-522 | For every count and throw position k elements k-1 to 0 are destroyed in that order, and none on success |
| ArrayUnwind.EhvecDtor | ntl/rtl/eh.cpp:490-504 | Elements are destroyed from the last to the first if and only if their size is at most 2^31 or there are none |
| ArrayUnwind.Unwind | ntl/rtl/eh.cpp:476-487 | From one past the constructed elements the walk destroys exactly those |
| ArrayUnwind.NothingStaysAlive | ntl/rtl/eh.cpp:490-522 | No object is constructed or destroyed twice, and none is alive after a throw or after destruction |

## Left out

- Headers under `ntl/stlx`, `nt/`, `pe/` and `win/`: their code is not part of this model.
- `initterm`, `zero_mem` and `binary_equal` go over a range once, so a contract could only repeat their loops, and no property proved here depends on them.
- `linked<1>` has the same assignments as `linked<2>` without the backward half.
- The x86 branch of the single-inheritance search rests on a record layout that this model does not have.
- `find_virtual_instance` is not implemented in the source; the nonpolymorphic branch of the multiple-inheritance search depends on another class's hierarchy and is taken as clear for all entries.
- The displacement test of the multiple-inheritance search is a given flag of each entry, and image-base arithmetic is left out.
- Link: a `linked_ptr` and the node it embeds are one object, so the address arithmetic of `containing_adaptor` is not modelled.
- Copy: the pointer of a copy-constructed `linked_ptr` is not initialised by the source and is arbitrary here.
- Send: drivers are a sequence of actions, one each, that holds for all sequences; request parameters are one number, and completion on the way back up belongs to the system.
- AllRuns: the system's interlocked list and pool calls are single steps, Depth is constant, and the 16-bit depth of the system's list header is unbounded; under concurrency the unsynchronised statistics counters are left out.
- EachHandlerOnce: handlers that register handlers while the walk runs are left out, as are exceptions thrown by handlers, which terminate the program.
- AtQuickExit: calls from several threads are left out; its scan reads slots that other threads may be filling.
- ToDec: negating the minimum of a 32-bit or 64-bit signed type is undefined in C++ and is modelled as wrap-around.
- SpacedHexToBytes: the source does not check the buffer, so it is required to hold everything; what the character after the text is, is a parameter.
- Fraction: the stream, and with it the test for showpoint, is left out; so are negative byte counts.
- BuildDriverImage: the search for the signature is left out and the block's position is given; the image must have room for what the check accepts.
- MatchBootDrivers: collecting the active drivers and patching what is left are left out; a char is signed, as it is for the compiler of the sources.
- EhvecDtor: addresses are integers without a bound, negating the smallest int is undefined in C++ and is modelled as wrap-around, and a destructor that throws terminates the program.
- `cxxframehandler`, `CxxCallCatchBlock`, the interlocked primitives, sockets, timers, the console, the registry, files and MD5.
