# Verified models of the lighting firmware's C library, configuration store and schedulers

This project models the algorithmic core of the firmware and proves what it promises, for all inputs
and over all runs:

- **Heap** (`HeapModel`, `HeapAnswers`, `HeapMemory`, `Heap32`, `HeapAllocator`). `malloc`, `free`, `realloc` and
  `calloc` on a flat byte memory: size buckets, free lists threaded through the block headers, a bump pointer. The abstract heap
  says which blocks exist and who owns them, the memory module how it lies in bytes; the class works on the
  bytes and is proved to store exactly that heap.
- **Configuration store** (`ConfigStoreModel`, `ConfigStoreValues`, `ConfigStoreClass`). The RAM image, its seven-state commit
  machine and the timer, on a NOR flash whose erase and write make arbitrary partial progress per call.
- **Calendar and FAT timestamps** (`Calendar`, `FatTime`). The loops of `gmtime` and `mktime` against a
  closed-form Gregorian day count, and the two bit packings of FAT on top of them.
- **Printing and reading** (`PrintfModel`, `Printf`, `FormatSteps`, `Conversions`, `UuidModel`, `Uuid`, `Inet`,
  `SlotInfo`, `Strtok`). `printf` with its bounded sink, UUID, IPv4 and slot-description texts with their parsers,
  and the tokenizer.
- **Schedulers and arithmetic** (`PollModel`, `PollFairness`, `PollReplies`, `InstallModel`, `FlashInstall`,
  `EmaFilter`, `Ptp`). The Art-Net poll-reply queue, the chunked firmware installer, the integer moving average and
  the PTP time arithmetic.

Code that changes state is a class or a method with the loops of the C++ code. Its contract ties the new
state to a function of the old one, and the lemmas prove what the firmware promises about that function.
`NorFlash` is the flash device of store and installer; `Numbers`, `Digits` and `Options` hold what several
modules share. `dafny verify dfyconfig.toml` checks everything.

Where the code falls short of what it is for, the code is kept as it is: a lemma says exactly when the
promise is met, and where an input is worth naming another one names it.

| promise | met exactly when | input that breaks it |
|---|---|---|
| every run keeps the heap intact | `RunRightIff`, `MallocRightIff` | `CarveCheckWraps` |
| a block from calloc holds n*size bytes | `CallocHoldsIff` | `CallocWraps` |
| a change is committed by the timer | `StrandedIff` | `StrandedRun` |
| UpdateArray stores its argument | `ArrayStoredIff` | `ShorteningSkipped` |
| FAT and calendar round trips | `FatRoundTrip`, `MkTimeOfGmTime` | `OutsideFatYears` |
| width and padding of printed numbers | `NumberWidthIff`, `RightJustifiedIff`, `NegativeWidth` | `PrecisionTooShort`, `SpaceBehind`, `NegativeTooWide` |
| a character has its width | `CharWidthIff` | `CharTooShort` |
| snprintf keeps a prefix of sprintf | `SnprintfKeepsPrefix` | `SizeTooLarge` |
| inet_aton reads only its text | `ReadsOnlyItsTextIff` | `ReadsPastTerminator` |
| ToString stays inside its buffer | `WritesInsideIff`, `EightIsEnough` | `SevenIsShort`, `HighMaskWrites` |
| the slot text comes back | `RoundTripIff` | `SecondBecomesFirst` |
| a filter reproduces its seed | `SteadyIff` | `SeedLost` |
| a poll is accepted, once | `AcceptedIff`, `QueuedTwiceIff` | `LostAtClockZero`, `FifthPollLost`, `QueuedTwiceRun` |
| a queued poll is answered | `AnsweredIff`, `AnsweredWithin` | `Starves` |
| a true verdict means the image is in flash | `Verdict`, `VerdictAfterCompletion`, `InstallExact` | `FailedWriteAccepted`, `FailedEraseAccepted` |
| chunk guard and sector rounding (no real flash is large enough to break them) | `ChunkGuardIff`, `RoundedHoldsIff` | `ChunkGuardWraps`, `RoundingWraps` |
| subseconds lose at most a nanosecond | `LosesAtMostOneIff` | `TwoSecondsLost` |

## Model

| member | source | states |
|---|---|---|
| HeapModel.ExactTiling | lib-clib/src/malloc.cpp:94-184 | after every run of malloc, free, realloc and calloc an address lies below the bump pointer if and only if some block covers it, and no two blocks cover the same address |
| HeapModel.LivePayloads | lib-clib/src/malloc.cpp:94-184 | after every run a live payload is 4-aligned, lies inside the carved range and meets no other block, header or payload |
| HeapModel.MallocInv | lib-clib/src/malloc.cpp:94-151 | malloc keeps the heap invariant: gapless disjoint blocks, acyclic lists, every free block on the list of its own size |
| HeapModel.MallocServed | lib-clib/src/malloc.cpp:94-151 | malloc answers null and changes nothing, or answers one fresh aligned live block that is large enough; every live block stays |
| HeapModel.ReleaseInv | lib-clib/src/malloc.cpp:153-184 | free keeps the invariant, ends exactly that block's life, and keeps the other live blocks |
| HeapModel.ReallocInv | lib-clib/src/malloc.cpp:218-264 | realloc keeps the invariant on each of its paths |
| HeapModel.StepInv | lib-clib/src/malloc.cpp:94-264 | each of the four operations keeps the invariant |
| HeapModel.Run | lib-clib/src/malloc.cpp:94-264 | the heap after any sequence of operations from power-up satisfies the invariant |
| HeapModel.CarvedSplit | lib-clib/src/malloc.cpp:115-141 | the blocks of a bucket's size number those in use plus those on its list: none is lost or listed twice |
| HeapModel.CarvedIsPeak | lib-clib/src/malloc.cpp:101-141 | over every run the blocks ever carved for a bucket number exactly the largest number that were live at once |
| HeapModel.GrowingMoves | lib-clib/src/malloc.cpp:218-264 | a growing realloc never takes a new block for the old block's bucket |
| HeapModel.PayloadInside | lib-clib/src/malloc.cpp:45-50 | header, payload and padding of a block stay within its extent and out of every other block's |
| HeapAnswers.GrantedRounds | lib-clib/src/malloc.cpp:101-111 | a request is rounded up to the least bucket that holds it, or to itself if none does |
| HeapAnswers.MallocNullIff | lib-clib/src/malloc.cpp:94-151 | malloc answers null if and only if nothing is asked, or no free block of the rounded size waits and no new one fits |
| HeapAnswers.MallocBlock | lib-clib/src/malloc.cpp:94-151 | its block has exactly the rounded size, and is a waiting one if there is any, otherwise the next new one |
| HeapAnswers.LastFreedFirst | lib-clib/src/malloc.cpp:113-184 | the block freed last is the first of its size to be handed out again, and the heap is as before |
| HeapAnswers.CallocAnswer | lib-clib/src/malloc.cpp:186-216 | calloc of nothing answers null, of a product within 32 bits it answers as malloc of the product |
| HeapAnswers.ReallocAnswer | lib-clib/src/malloc.cpp:218-264 | to a size the block holds realloc answers the block and changes nothing; to a longer one it answers malloc's block, and only if that is not null the old one dies; to nothing it frees |
| HeapAnswers.ReallocKeeps | lib-clib/src/malloc.cpp:218-264 | every other live block stays, whatever it answers |
| HeapAnswers.ReallocOfNull | lib-clib/src/malloc.cpp:218-222 | of null it is malloc |
| HeapAllocator.Allocator.constructor | lib-clib/src/malloc.cpp:64-65 | power-up: empty lists and the bump pointer at heap_low store the empty heap |
| HeapAllocator.Allocator.FindBucket | lib-clib/src/malloc.cpp:101-111 | the bucket loop finds the first size that is large enough and rounds the request up to it |
| HeapAllocator.Allocator.TakeFree | lib-clib/src/malloc.cpp:115-117 | the head of a non-empty list is unlinked; only its header changes and memory stores the new abstract heap |
| HeapAllocator.Allocator.CarveBlock | lib-clib/src/malloc.cpp:119-141 | a header at the bump pointer makes the new block part of the stored heap; nothing else is written |
| HeapAllocator.Allocator.BumpOrFail | lib-clib/src/malloc.cpp:119-141 | the bump pointer moves past the new block, or nothing changes because the limit would be passed |
| HeapAllocator.Allocator.Malloc | lib-clib/src/malloc.cpp:94-151 | memory takes the abstract malloc step; a failure changes no byte, and every byte of every live payload is kept |
| HeapAllocator.Allocator.GetAllocated | lib-clib/src/malloc.cpp:77-91 | reads the granted size of a live block, 0 for null |
| HeapAllocator.Allocator.FindExact | lib-clib/src/malloc.cpp:165-175 | the bucket loop of free finds the bucket of exactly this size, or none |
| HeapAllocator.Allocator.PushFree | lib-clib/src/malloc.cpp:170-183 | the block becomes the head of its bucket's list; only its header changes |
| HeapAllocator.Allocator.Free | lib-clib/src/malloc.cpp:153-184 | memory takes the abstract release step and every other live payload keeps its bytes |
| HeapAllocator.Allocator.CopyForward | lib-clib/src/malloc.cpp:241-258 | the word-then-byte copy moves the promised prefix and writes nothing outside the destination |
| HeapAllocator.Allocator.Realloc | lib-clib/src/malloc.cpp:218-264 | takes the abstract realloc step; the old payload's bytes are in the new block, other payloads are untouched, and a failure changes nothing |
| HeapAllocator.Allocator.Grow | lib-clib/src/malloc.cpp:230-264 | the growing path: allocate, copy, release the old block to its own list; null leaves heap and memory as they were |
| HeapAllocator.Allocator.ZeroFill | lib-clib/src/malloc.cpp:199-213 | zeroes exactly the given range |
| HeapAllocator.Allocator.Calloc | lib-clib/src/malloc.cpp:186-216 | a block of n*size (mod 2^32) zero bytes, or null and unchanged memory; live payloads are kept |
| HeapAllocator.Allocator.WritePayload | lib-clib/src/malloc.cpp:45-50 | a caller's store into its own payload cannot disturb headers, lists or the invariant |
| HeapModel.CallocHoldsIff | lib-clib/src/malloc.cpp:186-216 | a block handed out by calloc holds the n*size bytes asked for if and only if their number fits 32 bits |
| HeapModel.CallocWraps | lib-clib/src/malloc.cpp:186-216 | on a fresh heap a request of 4 GiB and 64 KiB is answered with a block of 64 KiB |
| Heap32.MallocRightIff | lib-clib/src/malloc.cpp:94-151 | for every heap and every 32-bit request, malloc as the code decides it takes the right step and keeps the heap intact if and only if the request needs no limit check or the check is not misled by wrap-around |
| HeapMemory.CarveCheckExact | lib-clib/src/malloc.cpp:119-126 | the 32-bit limit check is right if and only if the sum does not wrap, or wraps to an address still above the limit |
| Heap32.CarveCheckWraps | lib-clib/src/malloc.cpp:119-141 | on a fresh heap of 28 KiB a request of nearly 4 GiB is answered with a block that does not fit, and the bump pointer moves down |
| Heap32.StepRightIff | lib-clib/src/malloc.cpp:94-264 | each operation of the 32-bit code takes the right step and keeps the heap intact if and only if it reaches no misled limit check |
| Heap32.RunRightIff | lib-clib/src/malloc.cpp:94-264 | over every run from power-up the 32-bit code keeps the heap intact if and only if no operation reached a misled limit check, and then its heap is the modelled one |
| HeapMemory.StoredTakeHead | lib-clib/src/malloc.cpp:115-117 | clearing one link word and moving the list head stores the heap with that block taken |
| HeapMemory.StoredPush | lib-clib/src/malloc.cpp:176-178 | writing one link word and the list head stores the heap with the block released |
| HeapMemory.PayloadWrite | lib-clib/src/malloc.cpp:45-50 | bytes written inside a live payload leave the stored heap as it is |
| HeapMemory.GrowKeeps | lib-clib/src/malloc.cpp:230-264 | malloc, copy and free in a row move one payload and spoil no other |
| ConfigStoreModel.RunInSync | lib-configstore/include/configstore.h:486-612 | over every run with updates between any two steps of a partial erase or write: idle means flash equals the RAM image, erased states mean an all-0xFF region, writing means every flash byte still has the store's bits; nothing outside the region changes; if every timer asked for is granted no change waits without one |
| ConfigStoreModel.StepInSync | lib-configstore/include/configstore.h:486-612 | every single step (timer, commit, update, array update, reset) keeps these |
| ConfigStoreModel.FlashInSync | lib-configstore/include/configstore.h:559-612 | a commit step with any outcome NOR flash allows keeps flash and state in agreement |
| ConfigStoreModel.BootInSync | lib-configstore/include/configstore.h:67-117 | the constructor starts in agreement with the flash |
| ConfigStoreModel.StrandedIff | lib-configstore/include/configstore.h:515-557 | over every run from boot a change waits without a timer if and only if the latest change (the boot counts as one) found none armed and was granted none |
| ConfigStoreModel.TimerOverRun | lib-configstore/include/configstore.h:515-557 | while a change is not in the flash, the timer is the one the latest change found or was granted |
| ConfigStoreModel.StrandedRun | lib-configstore/include/configstore.h:515-542 | a run in which a reset is refused a timer: the change waits and no timer event can happen |
| ConfigStoreModel.FlashProgress | lib-configstore/include/configstore.h:559-612 | each call brings the state one rank nearer to idle or is a device call still at work |
| ConfigStoreModel.CommitsReachIdle | lib-configstore/include/configstore.h:559-612 | as many completed calls as the state's rank reach idle, whatever unfinished calls lie between, and the RAM image is kept |
| ConfigStoreModel.RebootRestores | lib-configstore/include/configstore.h:67-117 | after a power cycle in the idle state a valid image is read back as it was in RAM; otherwise the defaults are queued for writing |
| ConfigStoreModel.ArrayStoredIff | lib-configstore/include/configstore.h:498-513 | an array update stores its argument if and only if the compared prefix differs or the rest of the field is already zero |
| ConfigStoreModel.ShorteningSkipped | lib-configstore/include/configstore.h:498-513 | shortening "ab" to "a" is skipped |
| ConfigStoreValues.UpdateStores | lib-configstore/include/configstore.h:486-496 | a setter leaves its value in the member and every other byte as it was, and marks a change if and only if the bytes differed |
| ConfigStoreValues.UpdateArrayStores | lib-configstore/include/configstore.h:498-514 | an array setter leaves the bytes, cut to the field, and zeros behind them, or nothing changed if the first bytes agree; never a byte outside the field |
| ConfigStoreValues.ResetClears | lib-configstore/include/configstore.h:127-130 | a reset clears every byte and marks the change |
| ConfigStoreValues.BootReads | lib-configstore/include/configstore.h:67-117 | power-up takes a signed flash content over as it is, replaces any other by a signature and zeros and marks it changed, and is empty without a device |
| ConfigStoreValues.ReadsLatest | lib-configstore/include/configstore.h:486-612 | over every run a member reads as its latest update until another update or a reset touches it |
| ConfigStoreValues.LatestSurvives | lib-configstore/include/configstore.h:67-612 | and once the store is idle the value is in the flash and the next power-up reads it, unless the signature is gone |
| ConfigStoreValues.TimerGivenUpIff | lib-configstore/include/configstore.h:521-528 | the timer is given up if and only if nothing is left to commit |
| ConfigStoreValues.NothingCommitted | lib-configstore/include/configstore.h:521-566 | without a device a commit does nothing and a timer event gives the timer up |
| ConfigStoreValues.FlashUntouched | lib-configstore/include/configstore.h:67-612 | over every run without a device no flash is touched and a change is never committed |
| ConfigStoreClass.ConfigStore.constructor | lib-configstore/include/configstore.h:67-117 | loads the device, or defaults that are marked changed, and starts in agreement |
| ConfigStoreClass.ConfigStore.MarkChanged | lib-configstore/include/configstore.h:515-542 | state is changed and a missing timer is asked for |
| ConfigStoreClass.ConfigStore.Update | lib-configstore/include/configstore.h:486-496 | stores a member only if it differs; flash and state stay in agreement |
| ConfigStoreClass.ConfigStore.UpdateArray | lib-configstore/include/configstore.h:498-513 | memset and memcpy leave the padded array in the field, unless the prefix already matches |
| ConfigStoreClass.ConfigStore.Reset | lib-configstore/include/configstore.h:126-129 | clears the image and marks it changed |
| ConfigStoreClass.ConfigStore.Flash | lib-configstore/include/configstore.h:559-612 | one commit step on the device takes exactly the modelled transition, keeps agreement, and reports whether work is left |
| ConfigStoreClass.ConfigStore.Timer | lib-configstore/include/configstore.h:520-527 | one commit step, and the timer is given up when nothing is left |
| ConfigStoreClass.ConfigStore.CommitAll | lib-configstore/include/configstore.h:654-657 | terminates when device operations do; then the state is idle and the flash region equals the RAM image, with nothing outside it changed |
| Calendar.WeekdayAgrees | lib-clib/src/time.cpp:65-117 | counting days from Thursday 1970-01-01 agrees with Gauss's rule for January 1st of every year |
| Calendar.DenotesUnique | lib-clib/src/time.cpp:65-117 | an instant has exactly one broken-down form |
| Calendar.YearOf | lib-clib/src/time.cpp:85-95 | the year loop splits a day count as the closed form does |
| Calendar.MonthOf | lib-clib/src/time.cpp:100-111 | the month loop ends below 12 with the day of month the closed form gives |
| Calendar.BrokenDownDenotes | lib-clib/src/time.cpp:65-117 | the loops yield valid fields that denote the instant, with the right weekday and day of year |
| Calendar.MkTimeOfGmTime | lib-clib/src/time.cpp:65-172 | mktime(gmtime(t)) == t if and only if t is before 2040-01-01; later instants give -1 |
| Calendar.GmTimeOfMkTime | lib-clib/src/time.cpp:65-172 | gmtime gives back every field tuple mktime accepts |
| Calendar.MkTimeRefuses | lib-clib/src/time.cpp:120-150 | mktime answers -1 if and only if a field is out of range or the year is not 1970 to 2039 |
| Calendar.EpochRange | lib-clib/src/time.cpp:120-172 | valid fields from 1970 on lie before 1980 or 2040 exactly if their year does |
| Calendar.Clock.GmTime | lib-clib/src/time.cpp:65-117 | refuses exactly the instants outside 32 bits and leaves the static result alone; otherwise the result denotes the instant |
| Calendar.Clock.SplitYears | lib-clib/src/time.cpp:85-95 | the year loop terminates and agrees with the closed-form day count |
| Calendar.Clock.SplitMonths | lib-clib/src/time.cpp:100-111 | the month loop terminates below 12 and agrees with the closed form |
| Calendar.Clock.MkTimeOf | lib-clib/src/time.cpp:120-172 | the summing loops give the closed-form second count, or -1, and no sum leaves 32 bits |
| FatTime.FatRoundTrip | lib-fatfs/src/get_fattime.cpp:31-44 | packing the clock and unpacking the halves gives t - t%2 if and only if t lies in 1980 to 2039, and -1 otherwise |
| FatTime.OutsideFatYears | lib-fatfs/src/get_fattime.cpp:31-44 | the first seconds of 1970 and of 2040 do not come back |
| FatTime.UnixRoundTrip | lib-fatfs/src/stat.cpp:33-48 | every stored timestamp that converts is packed back to the same two halves |
| FatTime.FatTimeToUnix | lib-fatfs/src/stat.cpp:33-48 | filling the fields one by one and calling mktime converts the two halves |
| FatTime.GetFatTime | lib-fatfs/src/get_fattime.cpp:31-44 | packs the broken-down clock value |
| FatTime.HalvesOfPacked | lib-fatfs/src/get_fattime.cpp:31-44 | unpacking the halves of a packed word gives every field back, with the year modulo 128 and the second even |
| PrintfModel.DecCanonical | lib-clib/src/printf.cpp:128-178 | the digits denote the number and have no leading zero |
| PrintfModel.HexCanonical | lib-clib/src/printf.cpp:75-126 | the same for hexadecimal in both cases |
| PrintfModel.NumberLayout | lib-clib/src/printf.cpp:128-178 | a number is spaces, its sign, zeros, its digits and spaces, for every flag, width and precision, and exactly a negative one has a sign |
| PrintfModel.NumberWidthIff | lib-clib/src/printf.cpp:128-178 | it is as wide as the maximum of digits, width and precision if and only if the precision does not outrun the 63 places of the buffer, the width and the digits |
| PrintfModel.RightJustifiedIff | lib-clib/src/printf.cpp:161-177 | its spaces are all in front, as C demands, if and only if the width does not outrun the buffer and the number |
| PrintfModel.NegativeWidth | lib-clib/src/printf.cpp:144-178 | a negative number has the width C demands if and only if no zero was padded for a width within the buffer and the precision does not outrun buffer and width |
| PrintfModel.PrecisionTooShort | lib-clib/src/printf.cpp:128-178 | "%.64d" of 7 has 63 digits |
| PrintfModel.SpaceBehind | lib-clib/src/printf.cpp:161-177 | "%64d" of 7 has one of its spaces behind the number |
| PrintfModel.SizeTooLarge | lib-clib/src/printf.cpp:484-508 | with a size of 2^31 nothing of "a" is stored |
| PrintfModel.NegativeTooWide | lib-clib/src/printf.cpp:144-178 | "%03d" of -7 is "-007" |
| PrintfModel.SnprintfKeepsPrefix | lib-clib/src/printf.cpp:484-508 | for every format, argument list and size from 1 on, snprintf stores the first size-1 characters of what sprintf stores if and only if the size survives its cast to int or there is nothing to store; sprintf stores the whole text if and only if it is shorter than 2^31-1 |
| PrintfModel.Uint32Digits | lib-clib/src/printf.cpp:75-178 | 32-bit numbers never overrun the digit buffer |
| Printf.Printer.PutChar | lib-clib/src/printf.cpp:62-73 | one character to the console, or to the buffer if its running number is below the capacity |
| Printf.Printer.FillDec | lib-clib/src/printf.cpp:128-142 | the backward digit loop leaves the decimal text at the end of the buffer |
| Printf.Printer.FillHex | lib-clib/src/printf.cpp:75-100 | the same in hexadecimal |
| Printf.Printer.Pad | lib-clib/src/printf.cpp:145-170 | a padding loop pads to the asked length and never past the buffer |
| Printf.Printer.FormatInt | lib-clib/src/printf.cpp:128-178 | sends the padded decimal text |
| Printf.Printer.FormatHex | lib-clib/src/printf.cpp:75-126 | sends the padded hexadecimal text |
| Printf.Printer.FormatString | lib-clib/src/printf.cpp:287-310 | sends the string cut to its precision and padded to its width |
| Printf.Printer.FormatPointer | lib-clib/src/printf.cpp:312-320 | sends 0x and eight digits |
| Printf.Printer.ReadConversion | lib-clib/src/printf.cpp:335-380 | reads flags, width, precision and length as the format defines them |
| Printf.Printer.Convert | lib-clib/src/printf.cpp:380-425 | each conversion letter sends its text |
| Printf.Printer.Vprintf | lib-clib/src/printf.cpp:322-433 | the whole format's text goes to the sink and its length is returned, for every format and argument list |
| Printf.Printer.Snprintf | lib-clib/src/printf.cpp:484-508 | for size at least 1 the kept prefix and a NUL are in the buffer, the rest and the console are untouched, and the full length is returned; size 0 prints on the console |
| Printf.Printer.Sprintf | lib-clib/src/printf.cpp:455-470 | the whole text and a NUL are in the buffer, the rest is untouched |
| FormatSteps.HexFieldText | lib-clib/src/printf.cpp:75-126 | "%0wx" of the big-endian number of w/2 bytes is their digits, two by two |
| FormatSteps.PaddedHexIsFixed | lib-clib/src/printf.cpp:75-126 | zero-padded hexadecimal of a number that fits w digits is its w fixed digits |
| FormatSteps.DecStep | lib-clib/src/printf.cpp:322-433 | "%d" anywhere in a format sends the decimal text, with '-' in front of a negative number, and goes on behind it |
| Conversions.SpecRead | lib-clib/src/printf.cpp:336-383 | a flag, a width and a precision written in decimal are read as these, and the letter behind them, with or without 'l', is found |
| Conversions.StarRead | lib-clib/src/printf.cpp:361-367 | ".*" takes its precision from the arguments, a negative one as positive |
| Conversions.DecimalSent | lib-clib/src/printf.cpp:389-400 | %d and %i send a 32-bit number with its sign, laid out by flag, width and precision |
| Conversions.UnsignedSent | lib-clib/src/printf.cpp:414-417 | %u sends a 32-bit number without a sign |
| Conversions.HexSent | lib-clib/src/printf.cpp:418-423 | %x and %X send its hexadecimal digits |
| Conversions.PointerSent | lib-clib/src/printf.cpp:312-320 | %p sends 0x and eight hexadecimal digits, whatever flag, width and precision |
| Conversions.CharSent | lib-clib/src/printf.cpp:386-388 | %c sends the one character |
| Conversions.CharWidthIff | lib-clib/src/printf.cpp:386-388 | it has the width C demands if and only if that is at most one |
| Conversions.CharTooShort | lib-clib/src/printf.cpp:386-388 | "%5c" sends one character |
| Conversions.StringSent | lib-clib/src/printf.cpp:287-310 | %s sends the string cut to its precision, with the missing width in spaces before it or, after '-', behind |
| Conversions.UnknownSentTwice | lib-clib/src/printf.cpp:424-427 | a letter that is no conversion is sent twice |
| Conversions.PercentStartsAgain | lib-clib/src/printf.cpp:424-427 | "%%" sends one '%' and its second one starts another conversion |
| Conversions.PercentAtEnd | lib-clib/src/printf.cpp:424-427 | a format that ends in "%%" sends its terminating NUL too |
| Conversions.PlainFormat | lib-clib/src/printf.cpp:330-334 | a format without '%' is sent as it stands |
| UuidModel.UnparseOutput | lib-clib/src/uuid_unparse.cpp:69-114 | sprintf of the unpacked fields gives the canonical text of the sixteen bytes |
| UuidModel.ParseOfText | lib-clib/src/uuid_parse.cpp:121-170 | reading the printed text, in lower or upper case, returns the same sixteen bytes, for every value |
| UuidModel.TextOfParse | lib-clib/src/uuid_parse.cpp:121-170 | printing what was read from any accepted text gives that text in lower case |
| UuidModel.TextAccepted | lib-clib/src/uuid_parse.cpp:121-145 | every printed text passes the shape test |
| Uuid.UuidUnpack | lib-clib/src/uuid_unparse.cpp:78-103 | the shifts collect the fields as big-endian numbers |
| Uuid.UuidUnparse | lib-clib/src/uuid_unparse.cpp:105-123 | the buffer holds the canonical text and a NUL |
| Uuid.HexUint32 | lib-clib/src/uuid_parse.cpp:69-86 | the digit loop reads the run of hexadecimal digits in 32 bits |
| Uuid.FourBytesRead | lib-clib/src/uuid_parse.cpp:69-86 | eight digits read as the big-endian number of their four bytes |
| Uuid.UuidPack | lib-clib/src/uuid_parse.cpp:88-119 | storing the fields byte by byte restores the sixteen bytes they were unpacked from |
| Uuid.CheckShape | lib-clib/src/uuid_parse.cpp:121-145 | the loop accepts exactly 36 characters with dashes in the four places and hexadecimal digits elsewhere |
| Uuid.UuidParse | lib-clib/src/uuid_parse.cpp:121-170 | 0 and the bytes of an accepted text, or -1 and an untouched buffer |
| Inet.NtoaOutput | lib-clib/src/inet_ntoa.cpp:29-35 | the format call gives the dotted decimal text, at most 15 characters |
| Inet.InetNtoa | lib-clib/src/inet_ntoa.cpp:29-35 | that text and its NUL are in the static buffer |
| Inet.InetAton | lib-clib/src/inet_aton.cpp:37-90 | on the memory from the argument on: 1 and the four bytes if it is accepted, or 0 and an untouched address |
| Inet.AtonOfNtoa | lib-clib/src/inet_aton.cpp:37-90 | inet_aton reads back what inet_ntoa printed, for every address and whatever lies behind the terminator |
| Inet.AtonOfGroups | lib-clib/src/inet_aton.cpp:37-90 | it reads the same address if NUL or line feed stand for the dots |
| Inet.ReadsPastTerminator | lib-clib/src/inet_aton.cpp:44-64 | after a text of one number the other three fields are read from behind its terminator |
| Inet.ReadsOnlyItsTextIff | lib-clib/src/inet_aton.cpp:37-90 | the answer does not depend on the memory behind the terminator if and only if the text is not three or fewer groups of at most three digits |
| Inet.DottedFields | lib-clib/src/inet_aton.cpp:37-90 | groups of digits, with dots, NULs or line feeds between them, are accepted if and only if none has more than three; each counts modulo 256 and an empty one as 0 |
| Inet.AcceptedIff | lib-clib/src/inet_aton.cpp:37-90 | a text is accepted if and only if it is four groups of at most three digits with '.', NUL or line feed between them and a space, NUL or line feed behind |
| SlotInfo.DmxSlotInfo.FromString | lib-dmxnode/include/dmxslotinfo.h:69-93 | fills the first slots with the entries read, keeps the others, and reports as many low ones as entries |
| SlotInfo.DmxSlotInfo.ParseSlot | lib-dmxnode/include/dmxslotinfo.h:147-210 | reads one entry and where the next begins, or reports it invalid |
| SlotInfo.DmxSlotInfo.ToString | lib-dmxnode/include/dmxslotinfo.h:95-138 | whenever its writes lie in the buffer: the selected entries with commas between and a NUL, inside the buffer |
| SlotInfo.WritesInsideIff | lib-dmxnode/include/dmxslotinfo.h:95-138 | the writes stay inside a buffer if and only if it holds 8 characters for each one of the mask below the number of slots, and there is such a one unless the mask is 0 |
| SlotInfo.SevenIsShort | lib-dmxnode/include/dmxslotinfo.h:96-98 | with the code's 7 characters per slot the text of all slots is never inside |
| SlotInfo.EightIsEnough | lib-dmxnode/include/dmxslotinfo.h:95-138 | with 8 it is, for every mask that is 0 or selects a slot, and for no other |
| SlotInfo.HighMaskWrites | lib-dmxnode/include/dmxslotinfo.h:104-134 | for a mask whose ones all lie above the slots the only write is the NUL, one place in front of the buffer |
| SlotInfo.ReadLists | lib-dmxnode/include/dmxslotinfo.h:69-93 | reading a text of listed entries gives those entries |
| SlotInfo.ParsedIff | lib-dmxnode/include/dmxslotinfo.h:147-210 | an entry is accepted if and only if it is at most two hexadecimal digits of either case, ':' (any character behind two), exactly four hexadecimal digits, and a comma, a space or the end; it is read as these numbers |
| SlotInfo.EntryText | lib-dmxnode/include/dmxslotinfo.h:113-127 | an entry is written as two and four upper-case hexadecimal digits with ':' between |
| SlotInfo.SelectedAt | lib-dmxnode/include/dmxslotinfo.h:112-131 | slot i is listed if its bit is set, behind as many entries as there are ones below bit i |
| SlotInfo.FromStringOfToString | lib-dmxnode/include/dmxslotinfo.h:69-138 | FromString on the text of ToString reads exactly the selected slots, in order |
| SlotInfo.RoundTripIff | lib-dmxnode/include/dmxslotinfo.h:69-138 | the mask comes back unchanged if and only if it is a low run of ones, and then every slot does |
| SlotInfo.SecondBecomesFirst | lib-dmxnode/include/dmxslotinfo.h:69-138 | of two slots with only the second selected, its description comes back in the first |
| SlotInfo.LowRunSelects | lib-dmxnode/include/dmxslotinfo.h:95-138 | a low run of p ones selects the first p slots |
| Strtok.Tokenizer.StrTok | lib-clib/src/strtok.cpp:58-101 | one call takes the modelled step on the buffer and the saved position, for a new string, the saved one, or none |
| Strtok.RunsExact | lib-clib/src/strtok.cpp:58-101 | the runs listed for a text are exactly its maximal delimiter-free runs |
| Strtok.RunsOrdered | lib-clib/src/strtok.cpp:58-101 | they come in order and never touch |
| Strtok.Tokenizes | lib-clib/src/strtok.cpp:58-101 | any number of calls returns exactly the maximal runs in order, then null; each token reads as its run; only the delimiter behind each returned token is overwritten |
| Strtok.CallsFollowRuns | lib-clib/src/strtok.cpp:58-101 | the same from any position of a partly tokenized buffer |
| Strtok.NullForEver | lib-clib/src/strtok.cpp:66-69 | without a saved position every call returns null and changes nothing |
| EmaFilter.Ema.constructor | lib-device/include/ema.h:45 | the seed in 16 bits |
| EmaFilter.Ema.Reset | lib-device/include/ema.h:54 | the same seed at any time |
| EmaFilter.Ema.Filter | lib-device/include/ema.h:56-61 | takes the modelled 16-bit step |
| EmaFilter.OutputsBounded | lib-device/include/ema.h:43-72 | over every run whose seed and inputs lie in [lo, hi] with hi*2^K below 65536 the outputs do too, and the state stays in its range |
| EmaFilter.FilteredBetween | lib-device/include/ema.h:56-61 | one call never wraps 16 bits and keeps the bounds |
| EmaFilter.NearestOutput | lib-device/include/ema.h:56-68 | unless the sum wraps the output is the integer nearest to sum/2^K, halves rounded up, and is taken off the state |
| EmaFilter.RoundsUpIff | lib-device/include/ema.h:56-68 | a rest of at least half a step is rounded up, a smaller one down |
| EmaFilter.Converges | lib-device/include/ema.h:43-72 | a constant input is the exact output after at most the state's distance from x*(2^K-1) calls, and for ever after |
| EmaFilter.ApproachMonotone | lib-device/include/ema.h:43-72 | on the way the outputs move monotonically and never past the input |
| EmaFilter.SteadyIff | lib-device/include/ema.h:45-61 | a filter seeded with a value reproduces it if and only if value*2^K fits 16 bits |
| EmaFilter.SeedCut | lib-device/include/ema.h:45-61 | otherwise its first output is the value modulo 2^(16-K) |
| EmaFilter.SeedLost | lib-device/include/ema.h:45-61 | with K = 2 a filter seeded with 0x4000 starts at 0 |
| PollModel.RunExact | lib-artnet/include/artnetnode_inline_impl.h:290-313 | over every run of polls and ticks: the replies are complete bursts of ports 0 to kMaxPorts-1, each to its own address, plus the begun one; every accepted poll was served once or is queued; a running reply's entry is occupied |
| PollModel.EveryReplyTimely | lib-artnet/include/artnetnode_inline_impl.h:290-313 | over every run each reply is sent by a Run, to a poll of the run that kept its entry until then, after a Run in between at which the delay of that poll had passed; the replies to the poll all come after that one |
| PollModel.NeverEarly | lib-artnet/include/artnetnode_inline_impl.h:294-297 | if the readings are a clock that never goes back, cut to 32 bits, more than the delay lies between the Run that sends a reply and the poll that filled the entry it answers |
| PollModel.QueuedByPoll | lib-artnet/src/node/artnetnodehandlepoll.cpp:289-305 | every occupied entry was put there by a poll of the run and has not changed since |
| PollModel.AddInv | lib-artnet/src/node/artnetnodehandlepoll.cpp:289-305 | queueing a poll keeps that account |
| PollModel.RunInv | lib-artnet/include/artnetnode_inline_impl.h:290-313 | one Run keeps that account |
| PollModel.RunDrains | lib-artnet/include/artnetnode_inline_impl.h:290-313 | once the delays have passed each call brings the queue nearer to empty |
| PollModel.Drained | lib-artnet/include/artnetnode_inline_impl.h:290-313 | with no new arrivals the queue is empty, and every accepted poll answered, within a number of calls given in closed form |
| PollModel.CallsLeftPositive | lib-artnet/include/artnetnode_inline_impl.h:290-313 | that number is 0 only for an empty queue and at most 4*(kMaxPorts+4)+4 |
| PollModel.AcceptedIff | lib-artnet/src/node/artnetnodehandlepoll.cpp:289-305 | a poll is accepted if and only if a free entry comes before any entry of its address and the clock is not 0 |
| PollModel.QueuedTwiceIff | lib-artnet/src/node/artnetnodehandlepoll.cpp:289-305 | an address that is queued is queued again if and only if a free entry precedes all its entries |
| PollModel.QueuedTwiceRun | lib-artnet/src/node/artnetnodehandlepoll.cpp:289-305 | a run with one port after which the same address is queued in two entries |
| PollModel.LostAtClockZero | lib-artnet/src/node/artnetnodehandlepoll.cpp:296-303 | after any run a poll that arrives at clock reading 0 is in no entry |
| PollModel.FifthPollLost | lib-artnet/src/node/artnetnodehandlepoll.cpp:289-305 | a run that fills the queue with four polls and loses the fifth |
| PollFairness.WorkOverRun | lib-artnet/include/artnetnode_inline_impl.h:290-313 | over every stretch of a run in which a poll waits, the calls it still has to wait for are those at first, less the calls that did something, plus kMaxPorts+1 for each poll stored ahead of it |
| PollFairness.AnsweredIff | lib-artnet/include/artnetnode_inline_impl.h:290-313 | an event answers a waiting poll if and only if it is the last of these calls |
| PollFairness.AnsweredWithin | lib-artnet/include/artnetnode_inline_impl.h:290-313 | if no poll refills the current entry before the node steps on, a waiting poll is answered within a number of calls given in closed form, at most 4*kMaxPorts+7 |
| PollFairness.LongestReached | lib-artnet/include/artnetnode_inline_impl.h:290-313 | after four polls the last has exactly that many calls to wait for |
| PollFairness.Starves | lib-artnet/include/artnetnode_inline_impl.h:290-313 | for every n a run, with a clock that never goes back, in which n polls of one address are answered while an earlier poll of another still waits |
| PollReplies.ArtNetNode.PollReplyQueueAdd | lib-artnet/src/node/artnetnodehandlepoll.cpp:289-305 | the loop takes the modelled queueing step |
| PollReplies.ArtNetNode.Run | lib-artnet/include/artnetnode_inline_impl.h:290-313 | the method takes the modelled step on queue, index, port and replies |
| InstallModel.RoundedLeast | lib-flashcodeinstall/src/flashcodeinstall.cpp:109-110 | the erased size is the least multiple of the sector size that holds the firmware |
| InstallModel.RoundedHoldsIff | lib-flashcodeinstall/src/flashcodeinstall.cpp:109-110 | it holds the firmware at all if and only if the rounding sum stays in 32 bits |
| InstallModel.RoundingsAgree | lib-flashcodeinstall/src/flashcodeinstall.cpp:59-60 | for power-of-two sectors the mask rounding equals the division rounding, in 32 bits, for every size |
| InstallModel.AndHighBits | lib-flashcodeinstall/src/flashcodeinstall.cpp:60 | clearing the k low bits takes off the remainder by 2^k |
| InstallModel.Verdict | lib-flashcodeinstall/src/flashcodeinstall.cpp:96-171 | for every Erase(n) and every run of chunks, whatever the device reports, the verdict is true if and only if this erase or an earlier one succeeded and the lengths the guard let through add up to n in 32 bits |
| InstallModel.VerdictAfterCompletion | lib-flashcodeinstall/src/flashcodeinstall.cpp:96-171 | after a completion the next verdict is true if and only if the erase of that installation succeeded and the lengths let through add up to n in 32 bits |
| InstallModel.CompletionEnds | lib-flashcodeinstall/src/flashcodeinstall.cpp:150-171 | a completion clears the count and the write state, so a second one answers false |
| InstallModel.EraseAnswer | lib-flashcodeinstall/src/flashcodeinstall.cpp:96-128 | Erase answers the device's report, clears the count and takes whole sectors that just hold n bytes |
| InstallModel.ChunkAnswer | lib-flashcodeinstall/src/flashcodeinstall.cpp:130-148 | WriteChunk says true if and only if the chunk fits and the device reported it as written, and counts every chunk that fits |
| InstallModel.InstallExact | lib-flashcodeinstall/src/flashcodeinstall.cpp:96-171 | if the device reported every operation as done, flash holds the chunks the guard let through one after the other, the verdict is true if and only if they are n bytes, and nothing outside the erased range changed |
| InstallModel.FailedWriteAccepted | lib-flashcodeinstall/src/flashcodeinstall.cpp:140-147 | after a good erase a chunk the device failed to write is counted all the same: WriteChunk says false, the verdict is true, the flash is not the chunk |
| InstallModel.FailedEraseAccepted | lib-flashcodeinstall/src/flashcodeinstall.cpp:121-128 | a failed erase after an installation that was not completed: every chunk returns true, the verdict is true, the flash is not the image |
| InstallModel.ChunkGuardIff | lib-flashcodeinstall/src/flashcodeinstall.cpp:134-136 | the chunk guard is right if and only if the 32-bit sum does not wrap back below the size |
| InstallModel.ChunkGuardWraps | lib-flashcodeinstall/src/flashcodeinstall.cpp:134-136 | a counter at 1 of 1 lets a chunk of 2^32-1 bytes through |
| InstallModel.RoundingWraps | lib-flashcodeinstall/src/flashcodeinstall.cpp:109 | for firmware of 2^32-1 bytes nothing is erased |
| FlashInstall.FlashCodeInstall.Erase | lib-flashcodeinstall/src/flashcodeinstall.cpp:96-129 | the retry loop ends with the range blank and the fields as modelled; a range that leaves the flash is refused by the device |
| FlashInstall.FlashCodeInstall.WriteChunk | lib-flashcodeinstall/src/flashcodeinstall.cpp:131-148 | a chunk the guard lets through is written and counted, whatever the device reports; one that it does not changes nothing |
| FlashInstall.FlashCodeInstall.WriteAll | lib-flashcodeinstall/src/flashcodeinstall.cpp:140-142 | repeated partial writes clear exactly the bits one complete write clears |
| FlashInstall.FlashCodeInstall.WriteChunkComplete | lib-flashcodeinstall/src/flashcodeinstall.cpp:150-171 | reports the count, gives the modelled verdict and resets the chunk state |
| Ptp.Time.NormalizeTime | lib-gd32/include/gd32_ptp.h:70-81 | keeps sec*10^9+nsec and ends with less than a second of nanoseconds whose sign never opposes the seconds |
| Ptp.Time.SubTime | lib-gd32/include/gd32_ptp.h:83-88 | the exact difference in that form, also when the result is one of the operands |
| Ptp.NormalUnique | lib-gd32/include/gd32_ptp.h:70-81 | a span of time has only one such form |
| Ptp.ReadingsSubtract | lib-gd32/include/gd32_ptp.h:83-88 | two clock readings subtract without overflow if and only if their seconds do |
| Ptp.NanosecondRoundTrip | lib-gd32/include/gd32_ptp.h:58-68 | to subseconds and back is exact for the multiples of 5^9 and one less otherwise, modulo 2*10^9 |
| Ptp.SubsecondsIn | lib-gd32/include/gd32_ptp.h:58-62 | below two seconds the subseconds are the whole 2^-31 seconds in the nanoseconds |
| Ptp.NanosecondsIn | lib-gd32/include/gd32_ptp.h:63-68 | the nanoseconds are the whole ones in any number of subseconds |
| Ptp.LosesAtMostOneIff | lib-gd32/include/gd32_ptp.h:58-68 | the round trip loses at most one nanosecond if and only if the value is below 2*10^9 |
| Ptp.TwoSecondsLost | lib-gd32/include/gd32_ptp.h:58-68 | of two seconds nothing comes back |
| Ptp.SubsecondRoundTrip | lib-gd32/include/gd32_ptp.h:58-68 | from subseconds and back at most three are lost, for every 32-bit value |

## Left out

- HeapAllocator.Allocator.Malloc: covers every size_t request except one that reaches a limit check which the 32-bit wrap misleads; Heap32.RunRightIff says exactly when that is over any run, and that the heap is broken then. Grow, Realloc, Calloc and BumpOrFail inherit this.
- HeapAllocator.Allocator.CopyForward: realloc reads the new size from the shorter old block; a read behind the mapped memory gives 0 here, and only the old payload's bytes are promised.
- HeapAllocator.Allocator.Free: only null or a live block may be handed back, as C demands; what a double free does is not modelled.
- Heap: the bucket table is a parameter (strictly increasing sizes), its source is not part of this model; the debug counters and the reentrant wrappers are omitted.
- ConfigStoreClass.ConfigStore.Flash: the device reports success when it completes; error results and interval changes of the timer are not modelled.
- ConfigStoreModel.StrandedIff: the answer of SoftwareTimerAdd is a parameter; the software timers themselves are not modelled.
- Configuration store: the other typed setters are the same compare, copy and mark pattern as Update; the UTC offset taken over at start is omitted.
- ConfigStoreClass.ConfigStore.Update: stays inside the part of the image that is written to flash, as the members of the structure do.
- Calendar.Clock.GmTime: localtime, its UTC offset and the daylight-saving field are omitted.
- FatTime.FatTimeToUnix: masks and shifts are written as remainders and quotients; stat itself is FatFs plumbing.
- Printf.Printer.Vprintf: the build without floating point; a missing argument reads as 0 or the empty string where C leaves it undefined; widths, precisions and lengths are unbounded numbers; formats and string arguments hold no NUL before their end.
- Printf.Printer.Sprintf: the caller's buffer must hold the text, as sprintf demands; a text of 2^31-1 characters or more is cut as the code cuts it, where the int that counts it overflows.
- PrintfModel.SnprintfKeepsPrefix: sizes from 1 on; the code's own comment promises that size 0 writes nothing, but it prints on the console, and Printf.Printer.Snprintf follows the code.
- PrintfModel.NegativeWidth: at most 63 digits, which 32 bits never reach.
- Inet.InetAton: the argument is the memory from the text on, terminators included; what lies behind the known memory reads as NUL.
- SlotInfo.DmxSlotInfo.ToString: what the code does once it writes outside its buffer is not modelled; WritesInsideIff says exactly when it does.
- SlotInfo.RoundTripIff: slots hold an 8-bit type and a 16-bit category, and a mask that is not 0 but selects no slot is excluded, because there is no text then.
- SlotInfo.DmxSlotInfo.FromString: the mask is an unbounded number, so it agrees with the 32-bit one for up to 32 slots.
- Strtok.Tokenizes: one delimiter set for all calls; StrTok itself takes a new one each time.
- PollReplies.ArtNetNode.Run: a reply is one call of SendPollReply, which may itself skip a port; the target port addresses and the rest of Run are omitted.
- PollModel.Drained: the clock readings are arbitrary numbers at which every queued delay has passed; that real time gets there is not modelled.
- InstallModel.InstallExact: the flash lies within 32-bit addresses and the size plus a sector does not wrap (RoundedHoldsIff); WriteFirmware is modelled only for its rounding.
- FlashInstall.FlashCodeInstall.Erase: a device that is asked for a range outside the flash reports an error and changes nothing; watchdog and display are omitted.
- Ptp.Time.NormalizeTime: sums that leave 32 bits are undefined in C and excluded.
- Device registers, network, displays, sensors and floating-point formatting: no algorithm to prove or not integer arithmetic.
