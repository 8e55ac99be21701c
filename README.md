# kmod hash table and string helpers, modelled in Dafny

This project models two self-contained parts of kmod's shared code and proves
properties of them.

**The string-keyed hash table of `shared/hash.c`.** kmod uses it as its
in-process registry of names:

- `hash_new` rounds the bucket count up to a power of two. It sets the growth
  step to n_buckets / 32, clamped to [4, 64].
- The bucket of a key is `hash_superfast(key) & (n_buckets - 1)`.
  `hash_superfast` is Paul Hsieh's SuperFastHash, computed here in `bv32`
  exactly as the C code does.
- Each bucket is a dynamic array of (key, value) entries, kept sorted by
  `strcmp`.
- `hash_add` is an upsert that hands the replaced value to `free_value`.
- `hash_add_unique` refuses a present key with -EEXIST.
- `hash_find` and `hash_del` use binary search. `hash_del` shrinks the bucket
  when at least one whole step is slack.
- The iterator walks the buckets in order, and each bucket in key order.

The table is a class (`HashMap.Hash`) whose methods update a bucket array in
place. Ghost fields give an abstract view:

- `Contents`: the live entries of each bucket;
- `Capacity`: the allocated slots;
- `Freed`: every value handed to `free_value`, in call order.

The value-level specification is in module `Buckets`:

- `Get` is what a lookup finds.
- `Upsert` is what an add stores.
- `Remove` is what a delete leaves.
- `Flatten` is the iteration order.

The string and time helpers of `shared/util.c` are modelled too:

- `strchr_replace`, `underscores`, `alias_normalize` and `modname_normalize`
  work on character buffers. They are methods over `array<char>` proved
  against recursive specification functions (`ReplaceAll`, `Normalize`,
  `AliasRewrite`, `ModName`).
- `path_ends_with_kmod_ext` is modelled with its extension table. The build's
  compression options are a parameter.
- `ts_usec`, `ts_msec` and `msec_ts` are modelled with explicit 64-bit
  wrap-around.
- `get_backoff_delta_msec` takes the clock reading as a parameter.

Allocation failure is a parameter of every operation that allocates
(`callocFails`, `reallocFails`, `shrinkFails`), so each failure path is
modelled as well as the success path.

## Model

| member | source | states |
|---|---|---|
| KeyOrder.Strcmp | shared/hash.c:151 | the sign of strcmp on two keys read as unsigned bytes, with a proper prefix first |
| KeyOrder.StrcmpZero | shared/hash.c:151-152 | strcmp returns 0 exactly for equal keys |
| KeyOrder.StrcmpFlip | shared/hash.c:211-216 | swapping the arguments of the comparison flips its sign |
| KeyOrder.LessTotal | shared/hash.c:150-163 | the order of bucket entries is irreflexive, asymmetric and total on distinct keys |
| KeyOrder.LessTrans | shared/hash.c:150-163 | the order of bucket entries is transitive |
| Bits.AlignPower2 | shared/hash.c:37 | the bucket count becomes the smallest power of two not below the request (1 for 0 and 1) |
| Bits.BitAnd | shared/hash.c:134 | a bitwise and is no larger than either operand |
| Bits.BitAndLowMask | shared/hash.c:134 | masking with n - 1 for a power of two n is the remainder modulo n |
| SuperFast.KeyLen | shared/hash.c:132 | strlen stored into an unsigned int is the key length modulo 2^32 |
| SuperFast.Get16 | shared/hash.c:85-86 | the unaligned 16-bit read is the little-endian word of two key bytes |
| SuperFast.Char | shared/hash.c:93-111 | a trailing byte read through plain char keeps its low 8 bits, and is sign-extended above 0x7F where char is signed |
| SuperFast.HashSuperfast | shared/hash.c:73-122 | the loop over 4-byte rounds, the end case and the avalanche compute the digest of the key |
| SuperFast.DigestAbc | shared/hash.c:79-119 | known answer: the digest of "abc" is 0xD2BE198A |
| SuperFast.DigestSignedByte | shared/hash.c:107-110 | known answer: the key 0xFF, widened through a signed char, cancels the length and hashes to 0 |
| SuperFast.DigestAbcd | shared/hash.c:79-119 | known answer: the digest of "abcd", one full round, is 0xDAD8B8DB |
| SuperFast.MainLoop | shared/hash.c:79-90 | the main loop runs len / 4 rounds and ends at the offset of the trailing bytes |
| SuperFast.Step | shared/hash.c:85-89 | glue for MainLoop's invariant: one pass of the loop is one more unfolding of Rounds |
| Buckets.Values | shared/hash.c:61-66 | vocabulary for the free_value contracts: the values of a run of entries, in order, as its ensures spells out element by element |
| Buckets.ValuesAppend | shared/hash.c:57-70 | the values of two runs of entries are the values of each, one after the other |
| Buckets.GetNone | shared/hash.c:233-236 | a lookup finds nothing exactly when no entry holds the key |
| Buckets.GetIn | shared/hash.c:233-236 | what a lookup finds is an entry stored in the bucket |
| Buckets.GetAt | shared/hash.c:233-236 | in a sorted bucket the lookup of an entry's key returns that entry's value |
| Buckets.GetUpsert | shared/hash.c:150-169 | after an upsert the key maps to the new value and every other key maps as before |
| Buckets.UpsertFrom | shared/hash.c:150-169 | an upsert adds nothing but the new entry |
| Buckets.UpsertSorted | shared/hash.c:158-169 | an upsert keeps the bucket strictly sorted |
| Buckets.UpsertLength | shared/hash.c:155-168 | an upsert adds one entry for a new key and keeps the length for a present key |
| Buckets.UpsertInsertAt | shared/hash.c:158-166 | when every entry before p sorts before the key and the one at p after it, the upsert inserts at p and shifts the tail right |
| Buckets.UpsertReplaceAt | shared/hash.c:152-157 | when the entry at p holds the key, the upsert overwrites it in place |
| Buckets.GetRemove | shared/hash.c:260-267 | after a removal the key is gone and every other key maps as before |
| Buckets.RemoveAt | shared/hash.c:263-264 | removing the entry at i closes the gap with the entries after it |
| Buckets.DropSorted | shared/hash.c:263-264 | dropping one entry keeps a bucket sorted |
| Buckets.FlattenUpdateLength | shared/hash.c:167-168 | changing one bucket changes the total entry count by that bucket's difference |
| Buckets.FlattenPrefix | shared/hash.c:295-325 | the entries of the first buckets are a prefix of the iteration order |
| Buckets.FlattenMember | shared/hash.c:295-325 | every entry in iteration order comes from some bucket |
| Buckets.InFlatten | shared/hash.c:295-325 | every entry of a bucket appears in iteration order |
| Buckets.FlattenStep | shared/hash.c:304-311 | moving to the next bucket appends its entries |
| Buckets.FlattenAt | shared/hash.c:317 | entry e of bucket b sits at the offset of the earlier buckets' entries plus e |
| HashMap.StepFor | shared/hash.c:42-47 | the step is n_buckets / 32 clamped to [4, 64], each clamp taken exactly when it applies |
| HashMap.Mask | shared/hash.c:134 | the bucket index is below the bucket count |
| HashMap.MaskIsMod | shared/hash.c:134 | with a power-of-two count the index is the hash value modulo the count |
| HashMap.BucketOf | shared/hash.c:132-134 | the bucket picked for a key lies within the table |
| HashMap.ShrunkTotal | shared/hash.c:269-278 | a bucket shrinks exactly when one whole step is slack and realloc succeeds, to a multiple of the step above the entries in use |
| HashMap.StepRound | shared/hash.c:271-276 | the shrunk size stays above the entries in use and below the old size |
| HashMap.StepMore | shared/hash.c:139 | growing by one step keeps the size a multiple of the step |
| HashMap.Pack | shared/hash.c:20-31 | vocabulary tying the bucket array to the ghost view: each bucket's entries and size, as its ensures spells out element by element |
| HashMap.PackUpdate | shared/hash.c:144-145 | storing one bucket changes only that bucket |
| HashMap.TableOkAt | shared/hash.c:20-31 | every bucket of a well-formed table is well formed |
| HashMap.TableOkUpdate | shared/hash.c:144-145 | replacing one bucket by a well-formed one keeps the table well formed |
| HashMap.Scan | shared/hash.c:148-163 | the linear scan stops at the entry holding the key, or at the first greater key with every key before it smaller |
| HashMap.BSearch | shared/hash.c:233-234 | the binary search finds the index of the entry holding the key, or -1 exactly when no entry holds it |
| HashMap.Hash.constructor | shared/hash.c:33-49 | a new table has a power-of-two bucket count, the clamped step, and every bucket empty and unallocated |
| HashMap.Hash.Slot | shared/hash.c:134 | the bucket a key belongs in |
| HashMap.Hash.Locate | shared/hash.c:132-134 | glue: the bucket index is the masked SuperFastHash digest of the key, that is Slot and BucketOf |
| HashMap.Hash.Reserve | shared/hash.c:138-146 | a bucket about to fill grows by exactly one step; a failed realloc is -ENOMEM and changes nothing |
| HashMap.Hash.Store | shared/hash.c:144-145 | storing a well-formed bucket changes only that bucket's entries and size, keeps the table well formed and sets the count |
| HashMap.Hash.Overwrite | shared/hash.c:152-157 | a present key's old value goes once to free_value (when set) and the entry is overwritten in place |
| HashMap.Hash.InsertAt | shared/hash.c:158-168 | a new entry goes in before the first greater key, shifting the rest right; used and count grow by one |
| HashMap.Hash.Add | shared/hash.c:130-170 | hash_add is an upsert: 0 or -ENOMEM, the failure leaving everything unchanged; afterwards the key maps to the value and every other key as before; the count grows only for a new key; a replaced value is freed once |
| HashMap.Hash.Place | shared/hash.c:148-169 | the scan of hash_add either overwrites the key's entry or inserts it in order |
| HashMap.Hash.AddUnique | shared/hash.c:173-209 | hash_add_unique: -ENOMEM on a failed growth, -EEXIST exactly for a present key with the entries unchanged and nothing freed (a growth stays), otherwise an insertion that grows the count by one |
| HashMap.Hash.PlaceNew | shared/hash.c:191-208 | the scan of hash_add_unique: -EEXIST exactly when the key is present, otherwise an ordered insertion |
| HashMap.Hash.Find | shared/hash.c:218-237 | hash_find returns the value stored under the key, or nothing when the bucket is unallocated or lacks the key |
| HashMap.Hash.Drop | shared/hash.c:260-278 | the removed entry's value goes once to free_value, later entries move down, the count drops by one and the bucket shrinks by the step rule |
| HashMap.Hash.Del | shared/hash.c:239-281 | hash_del: -ENOENT exactly for an absent key, with no change; otherwise the key is gone, every other key maps as before, its value is freed once, the count drops by one and the bucket shrinks by the step rule |
| HashMap.Hash.GetCount | shared/hash.c:283-286 | the count is the number of stored entries |
| HashMap.Hash.Free | shared/hash.c:51-71 | hash_free hands every stored value to free_value once, bucket by bucket and in key order |
| HashMap.FreeBucket | shared/hash.c:63-66 | the values of one bucket's entries, in key order |
| HashMap.FreeWalk | shared/hash.c:58-69 | the walk of hash_free hands every value in bucket-then-key order to free_value, or none without free_value |
| HashMap.HashNew | shared/hash.c:33-49 | hash_new returns NULL exactly when calloc fails, otherwise a fresh empty well-formed table |
| HashMap.HashFree | shared/hash.c:51-70 | hash_free of NULL does nothing; otherwise every value is freed once |
| HashMap.FlattenEmpty | shared/hash.c:38 | a table of empty buckets holds no entries |
| HashMap.BucketOkUpsert | shared/hash.c:138-169 | adding to a bucket with room keeps it sorted and within its size, and all its keys hashing to it |
| HashMap.BucketOkDrop | shared/hash.c:260-278 | removing an entry and shrinking keeps a bucket well formed |
| HashMap.LookupUpsert | shared/hash.c:130-170 | after an upsert in the key's bucket, the key maps to the new value and every other key maps as before |
| HashMap.LookupRemove | shared/hash.c:239-281 | after a removal in the key's bucket, the key maps to nothing and every other key maps as before |
| HashMap.FlattenSlots | shared/hash.c:132-135 | every entry among the first m buckets has a key whose bucket index is below m |
| HashMap.FlattenKeys | shared/hash.c:130-170 | in the first m buckets of a well-formed table no key appears twice |
| HashMap.KeysUnique | shared/hash.c:283-286 | a table holds each key at most once, and its count is the number of entries |
| HashMap.LookupMeans | shared/hash.c:218-237 | a key maps to a value exactly when that entry is stored in the table |
| HashMap.HashIter.Seen | shared/hash.c:288-325 | how many entries the iterator has returned, never more than the table holds |
| HashMap.HashIter.constructor | shared/hash.c:288-293 | hash_iter_init starts before the first entry of bucket 0 |
| HashMap.HashIter.Next | shared/hash.c:295-325 | hash_iter_next returns the next entry in bucket-then-key order, and false exactly when every entry has been returned |
| HashMap.Offset | shared/hash.c:288-325 | the position of the iterator counted in entries, never past the table's total |
| HashMap.IterStep | shared/hash.c:295-325 | one call returns the entry at the next position and moves there, or returns nothing exactly when none remains |
| HashMap.SkipEmpty | shared/hash.c:305-311 | the scan stops at the first non-empty bucket, or at n_buckets, skipping only empty buckets |
| HashMap.Entries | shared/hash.c:288-325 | iterating from hash_iter_init until hash_iter_next fails yields every entry exactly once, in bucket-then-key order |
| HashMap.Pull | shared/hash.c:295-325 | each call of hash_iter_next in the loop either returns one more entry in order or finishes the walk |
| UtilStrings.StrLen | shared/util.c:59 | the index of the terminating NUL, with no NUL before it |
| UtilStrings.At | shared/util.c:74 | reading past the string gives NUL |
| UtilStrings.ReplaceAll | shared/util.c:59-62 | every c becomes r and nothing else changes; with c != r no c is left |
| UtilStrings.ReplaceAllIdempotent | shared/util.c:55-65 | replacing twice is replacing once |
| UtilStrings.StrchrReplace | shared/util.c:55-65 | strchr_replace rewrites the string before the NUL by ReplaceAll, leaves the NUL and what follows, and returns s |
| UtilStrings.Span | shared/util.c:128 | the strcspn jump to the first ']' or NUL at or after i |
| UtilStrings.SpanUnique | shared/util.c:128 | the position of the first ']' or NUL is unique |
| UtilStrings.SpanStopsAtNul | shared/util.c:128 | the jump never passes the terminating NUL |
| UtilStrings.ThenThen | shared/util.c:120-133 | text rewritten in two pieces is the same as in one |
| UtilStrings.Normalize | shared/util.c:113-136 | the rewrite is never longer than the input, and as long when it succeeds |
| UtilStrings.NormalizeShape | shared/util.c:120-133 | the rewrite only turns some '-' into '_' and keeps every other character |
| UtilStrings.NormalizeDashes | shared/util.c:107-133 | character by character, the rewrite turns every '-' outside a "[...]" range into '_' and keeps every other character, a '-' inside a range included |
| UtilStrings.NormalizeDashesFrom | shared/util.c:120-133 | the same from any token boundary, where every earlier '[' is closed |
| UtilStrings.RangeKept | shared/util.c:127-131 | a character of a range is copied as it is, and a '-' there lies inside brackets |
| UtilStrings.NotInBrackets | shared/util.c:121-124 | a character the loop reaches outside a range is not inside brackets |
| UtilStrings.DashesConcat | shared/util.c:120-133 | two pieces that each only turn some '-' into '_' make a piece that does too |
| UtilStrings.NormalizeNoRanges | shared/util.c:120-124 | without brackets, the rewrite succeeds and replaces every '-' by '_', as strchr_replace does |
| UtilStrings.NormalizeAgain | shared/util.c:113-136 | rewriting an already rewritten suffix gives the same rewrite |
| UtilStrings.AgainRange | shared/util.c:127-131 | a range kept as it is by the rewrite is kept again by the second rewrite, which goes on from the same index |
| UtilStrings.AgainChar | shared/util.c:121-124 | a character already rewritten is rewritten to itself, so both rewrites take the same token |
| UtilStrings.RangeTake | shared/util.c:127-131 | a range accepted by the rewrite is closed by a ']' and kept as it is |
| UtilStrings.RangeCopied | shared/util.c:128 | a string holding a copy of the range finds the same closing ']' |
| UtilStrings.RangeSame | shared/util.c:127-131 | two strings that hold the same range take the same token from it |
| UtilStrings.SpanAgrees | shared/util.c:128 | the strcspn jump depends only on the characters up to the ']' |
| UtilStrings.NormalizeIdempotent | shared/util.c:113-136 | underscores applied twice equals underscores applied once |
| UtilStrings.NormalizeStep | shared/util.c:121-131 | one token of the loop: a plain character, or a whole range copied as is |
| UtilStrings.UnderscoreToken | shared/util.c:121-131 | one pass of the loop handles one token, or fails with -EINVAL on a stray ']' or an open range without changing the buffer |
| UtilStrings.RangeEnd | shared/util.c:128-129 | i + strcspn(&s[i], "]") is the ']' closing the range, or the NUL exactly when none does |
| UtilStrings.UnderscoreStep | shared/util.c:120-131 | one pass of the loop extends the rewritten prefix by one token, or fails with -EINVAL and leaves the string as it was |
| UtilStrings.UnderscoresLoop | shared/util.c:120-135 | the loop leaves the rewrite in the string and returns 0 exactly when it succeeds; on -EINVAL the rewrite so far is followed by the untouched rest |
| UtilStrings.SpanShift | shared/util.c:128 | strcspn from &s[i] counts from i |
| UtilStrings.NulFreePrefix | shared/util.c:120 | the characters before the first NUL contain no NUL |
| UtilStrings.Underscores | shared/util.c:113-136 | underscores: -EINVAL for NULL; otherwise the string rewritten in place by Normalize, 0 exactly when it succeeds, -EINVAL with the replacements made so far kept and the rest untouched |
| UtilStrings.AliasRewrite | shared/util.c:69-105 | the rewrite stops after MAX_LEN characters and never reaches past them |
| UtilStrings.AliasRewriteFits | shared/util.c:69-105 | for an alias within MAX_LEN, alias_normalize rewrites exactly as underscores does |
| UtilStrings.AliasRewriteCut | shared/util.c:73 | a longer alias that succeeds is rewritten as its first MAX_LEN characters |
| UtilStrings.AliasEndAsWritten | shared/util.c:69-105 | the NUL index the code as written reaches, with no bound on the range copy |
| UtilStrings.OverflowingAlias | shared/util.c:81-91 | PATH_MAX - 2 letters followed by "[]" |
| UtilStrings.LettersThenRange | shared/util.c:73-96 | the letters before the range leave the code at the range |
| UtilStrings.AliasOverflowWitness | shared/util.c:81-100 | on OverflowingAlias the code as written puts its NUL at buf[PATH_MAX], one past the buffer |
| UtilStrings.AliasAsWrittenAgrees | shared/util.c:69-105 | wherever the bounded rewrite succeeds, the code as written ends at the same index |
| UtilStrings.AliasRewriteStep | shared/util.c:74-96 | one token of the loop: a plain character, or a whole range copied as is |
| UtilStrings.AliasToken | shared/util.c:74-96 | one pass of the loop copies one token, or fails with -EINVAL on a stray ']' or an open range |
| UtilStrings.AliasChar | shared/util.c:76-80 | '-' is written as '_', a stray ']' is -EINVAL, and any other character is copied |
| UtilStrings.AliasRangeTake | shared/util.c:81-91 | in the bounded rewrite a range fails unless a ']' closes it before the last slot, and is otherwise kept as it is |
| UtilStrings.AliasRange | shared/util.c:81-91 | a range is copied up to and including its ']', or is -EINVAL when it is not closed within the buffer |
| UtilStrings.CopyRange | shared/util.c:82-85 | the copy runs to the first ']' or NUL, and stops at MAX_LEN |
| UtilStrings.AliasNormalize | shared/util.c:69-105 | alias_normalize (bounded): 0 exactly when the rewrite succeeds, the rewrite in buf, NUL-terminated at len <= MAX_LEN |
| UtilStrings.AliasStep | shared/util.c:73-97 | one pass of the loop extends the rewrite in buf by one token and keeps what is before it, or fails with -EINVAL |
| UtilStrings.ModName | shared/util.c:142-150 | a module name is no longer than MAX_LEN and has no '-' or '.' |
| UtilStrings.ModNameShape | shared/util.c:142-150 | the name stops at MAX_LEN, at the end or at the first '.', and maps '-' to '_' before that |
| UtilStrings.ModNameAgain | shared/util.c:138-158 | a normalized name from i on is its own module name |
| UtilStrings.ModNameIdempotent | shared/util.c:138-158 | modname_normalize applied twice equals modname_normalize applied once |
| UtilStrings.ModnameNormalize | shared/util.c:138-158 | modname_normalize writes the module name into buf, NUL-terminated at len <= MAX_LEN, and returns buf |
| UtilStrings.KmodExts | shared/util.c:25-40 | the extension table: ".ko" first, and each compressed extension exactly when its format is enabled |
| UtilStrings.EndsWithAny | shared/util.c:175-182 | some table entry shorter than len matches the path from len minus its length |
| UtilStrings.PathEndsWithKmodExt | shared/util.c:171-183 | true exactly when some extension of the table is a strict suffix of the path |
| UtilStrings.KoAlwaysRecognized | shared/util.c:29 | a name ending in ".ko" is recognized whatever the build enables |
| UtilStrings.BareExtensionRejected | shared/util.c:176-177 | ".ko" on its own is not recognized |
| UtilTime.ToU64 | shared/util.c:503 | a cast to unsigned long long is the value modulo 2^64 |
| UtilTime.TsUsec | shared/util.c:500-504 | ts_usec is a 64-bit value |
| UtilTime.TsMsec | shared/util.c:506-510 | ts_msec is a 64-bit value |
| UtilTime.MsecTs | shared/util.c:512-520 | msec_ts gives a normalized timespec of whole milliseconds that adds up to msec |
| UtilTime.MsecRoundTrip | shared/util.c:506-520 | ts_msec of msec_ts(m) is m |
| UtilTime.TimespecRoundTrip | shared/util.c:506-520 | msec_ts of ts_msec(ts) is ts with its nanoseconds cut to whole milliseconds |
| UtilTime.DivModConst | shared/util.c:516-517 | the split into seconds and milliseconds is unique |
| UtilTime.MsecTsInUsec | shared/util.c:500-520 | ts_usec of msec_ts(m) is 1000 m modulo 2^64 |
| UtilTime.TsUsecExact | shared/util.c:500-504 | without wrap-around, ts_usec is the exact count of whole microseconds |
| UtilTime.Doubled | shared/util.c:548-554 | the doubled delta is at least 1, at least the old delta, below 2^64, and exactly twice it when that fits |
| UtilTime.HalvingsBelow | shared/util.c:557-561 | halving never exceeds the starting delta |
| UtilTime.HalvingsGap | shared/util.c:557-561 | no halving lies strictly between d / 2 and d |
| UtilTime.OneInHalvings | shared/util.c:557-561 | halving a positive delta passes through 1 |
| UtilTime.HalvingsStep | shared/util.c:558 | the next halving is a halving too |
| UtilTime.FirstFitUnique | shared/util.c:557-561 | at most one delta is the first halving that fits |
| UtilTime.FirstFitWhole | shared/util.c:557 | a doubled delta that already fits is kept as it is |
| UtilTime.FirstFitPositive | shared/util.c:559-560 | with time left, the first halving that fits is positive, so the fall back to the whole limit never fires |
| UtilTime.Halve | shared/util.c:557-561 | the loop halves the delta until it fits, ending at the first halving of the doubled delta that fits, which is positive |
| UtilTime.GetBackoffDeltaMsec | shared/util.c:536-567 | past the deadline the delta is 0 and the result is now; before it the delta is the first halving of the doubled delta that fits, 0 < delta <= tend - now, and the result is now + delta |

## Left out

- I/O, system calls and clocks in `shared/util.c` are not part of this model:
  `pread_str_safe`, `read_str_safe`, `write_str_safe`, `read_str_long`,
  `read_str_ulong`, `freadline_wrapped`, `path_make_absolute_cwd`, `mkdir_p`,
  `mkdir_parents`, `fd_lookup_path`, `sleep_until_msec`, `now_usec`,
  `now_msec`, `stat_mstamp`, `dlsym_many` and `memdup`. The clock reading
  `now_msec()` is a parameter of `GetBackoffDeltaMsec`.
- `path_to_modname` is not part of this model: it is a thin wrapper over
  libc `basename`, which is not visible.
- `shared/util.h` is not part of this model. `align_power2` and
  `get_unaligned` are given by their documented meaning (`Bits.AlignPower2`,
  `SuperFast.Get16`). The model assumes `KMOD_EXTENSION_UNCOMPRESSED` is ".ko".
- Memory management is abstracted. Releasing memory (`free`) is not modelled.
  `calloc` and `realloc` outcomes are boolean parameters. A bucket's entries
  are a sequence that its methods reassign, instead of a realloc'd buffer
  shifted with `memmove`. So aliasing of the entries buffer is not modelled.
- `HashMap.Hash`: the bucket choice goes through a ghost function field
  `hashFn`, which `Valid` ties to the SuperFastHash digest. This keeps the
  digest's bit-level definition out of the table proofs.
- `HashMap.Hash.Add`: the C code also stores the new key pointer over an equal
  old key. Keys are modelled as values, so that store is not visible.
- `HashMap.Hash.Find`: C returns NULL both for a missing key and for a stored
  NULL value. The model returns `None` or `Some(value)`, so a stored NULL is
  still told apart.
- `HashMap.Hash.GetCount`: `count`, `used` and `total` are unbounded naturals.
  The unsigned wrap-around above 2^32 entries is not modelled.
- `HashMap.Hash.constructor`: the bucket count is required to be at most
  2^31, so that `align_power2` stays within an unsigned int.
- `HashMap.HashIter.Next`: it requires the iterator not to have finished. The
  C code reads past the bucket array when called again after returning false.
- Keys are byte strings without an embedded NUL byte (the bytes before the
  terminator).
- `SuperFast.Char`: plain `char` is taken to be signed, as on x86-64. On
  targets where it is unsigned, `CHAR_IS_SIGNED` is false. The left shift of
  a negative `int` at shared/hash.c:97 is taken to wrap as two's complement.
- `UtilStrings.AliasNormalize` and `UtilStrings.ModnameNormalize` always
  return the length. The optional NULL `len` pointer is not modelled.
- `UtilStrings.AliasNormalize` models the corrected code, with the range copy
  bounded by the buffer (see Findings). The code as written is
  `UtilStrings.AliasEndAsWritten`.
- `UtilStrings.Underscores`: the `unsigned int` index is unbounded. Strings of
  4 GiB or more, where it would wrap, are not modelled.
- `UtilTime.TsUsec`: `time_t` and `long` are taken as integers that the cast
  reduces modulo 2^64. Values outside the signed 64-bit range cannot occur in
  C and are not excluded.

## Findings

| source | as written | input that shows it | evidently intended | confidence | as-written member | corrected member |
|---|---|---|---|---|---|---|
| shared/util.c:81-100 | the inner `while` of the `'['` case copies a range with no bound on `i`, and the `buf[i] = '\0'` after the loop uses the index the range ended on | an alias of 4094 letters followed by "[]": the ']' lands in buf[4095], the for-loop increments i to 4096, and the NUL is written at buf[4096], one past the PATH_MAX buffer (a longer range overruns while copying) | the range copy stays within buf: a range not closed before index PATH_MAX - 1 is -EINVAL, and every write, including the NUL, stays below PATH_MAX | high (not executed) | UtilStrings.AliasOverflowWitness | UtilStrings.AliasNormalize |
