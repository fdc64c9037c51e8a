# rscryutil decryption path, in Dafny

rsyslog's `rscryutil` decrypts a log file that was written in segments. Each segment is
encrypted under its own IV. A companion encryption-info file (the log's name plus the
`.encinfo` suffix) is a text file with one `TAG:VALUE` record per line:

- first a `FILETYPE` line carrying the format's cookie;
- then, for every segment, an `IV` line with the IV in lowercase hex;
- after it an `END` line with the absolute ciphertext offset where that segment ends.

This project models the decrypt path of `tools/rscryutil.c`, following the C code:

- `eiGetRecord`: the record reader (module `Records`). `fgets` goes into a bounded buffer,
  then two index loops split the tag from the value. Results: 1 when there is no line, 2 for a
  NUL in the tag, 3 for a NUL in the value, 0 for a record.
- `eiCheckFiletype`, `eiGetIV`, `eiGetEND`, and the key-length test of `initCrypt` (module
  `Validators`). Each check is a function of the parsed record. Beside it is a method that
  reads the record through `GetRecord` and is proved to compute that function. The IV is
  decoded nibble by nibble into an array. The END value goes through C's `atoll`: leading
  white space, an optional sign, then leading digits, with 0 when there are no digits.
- `removePadding` (module `Padding`): the in-place compaction of every zero byte from the
  first one onward. It is proved to equal "remove every zero byte" and to be idempotent.
- `decryptBlock` (module `Segments`): the chunk loop. Each read is `min(64 KiB, left)`
  rounded down to the block length. `leftTillBlkEnd` is computed modulo 2^64, like the
  `size_t` it is in C. The loop is a `while` over array buffers and the log and output files,
  proved against the function `SegmentLoop`.
- `initCrypt`, `doDecrypt` and the part of `decrypt()` between opening and closing the files
  (module `Decryption`). The loop of `doDecrypt` is proved against the function `RunFrom`. A
  metadata file written as `FILETYPE` plus well-formed `IV`/`END` pairs is proved to decrypt
  exactly the recorded segments, in order.

The cipher (3DES in CBC mode, through libgcrypt) is a parameter, `Algorithm`. It has:

- a block length and a key length;
- a decryption function of the key, the IV, the ciphertext already fed to the same handle (the
  CBC chain), and the chunk;
- the only properties assumed: the block length is positive, and a successful decryption
  returns as many bytes as it is given.

The header constants `EIF_MAX_RECTYPE_LEN`, `EIF_MAX_VALUE_LEN` and `RSGCRY_FILETYPE_NAME`
come from `libgcry.h`, which is not part of this model. They are the fields of `Format`.

The globals `gcry_chd` and `blkLength` become values passed explicitly:

- the `Session` that `initCrypt` builds;
- the `Algorithm`'s block length.

The FILE streams are objects:

- `TextFile` holds the metadata text and a read position;
- `ByteFile` holds the log bytes and a read position;
- `OutFile` holds everything written so far.

`doDecrypt` returns an uninitialised `r` when `initCrypt` fails in the first pass. That value
is modelled as `None` (`Decryption.ReturnValue`).

## Model

| member | source | states |
|---|---|---|
| `Common.CStr` | tools/rscryutil.c:110 | What `strlen`/`strcmp` see of a character buffer: a prefix of it holding no NUL, followed in the buffer by a NUL whenever it is shorter than the buffer. |
| `Records.LineEnd` | tools/rscryutil.c:55 | `fgets` stops after the first newline, at end of file, or when the room in the buffer is used up. It always takes at least one character when one is left. |
| `Records.Zeroed` | tools/rscryutil.c:52 | The record buffer as the model initialises it: `sizeof(buf)` zero characters. |
| `Records.AfterFgets` | tools/rscryutil.c:52-55 | The record buffer after `fgets`: the chunk read, its NUL terminator, and from there on the bytes the buffer held before, all `sizeof(buf)` characters long. |
| `Records.TagStop` | tools/rscryutil.c:59-64 | Where the tag loop leaves `i`: at or above where it resumes, never beyond EIF_MAX_RECTYPE_LEN, and on a ':' unless it stopped at that bound. |
| `Records.ValueStop` | tools/rscryutil.c:66-71 | Where the value loop leaves `i`: at or above where it resumes, on a newline unless it reached EIF_MAX_VALUE_LEN. The bound is on the absolute index: a loop that resumes at or past it stops at once. |
| `Records.AsWrittenRecord` | tools/rscryutil.c:52-71 | eiGetRecord over the buffer as the code leaves it, with stale bytes past the terminator. It never reports "no line". An accepted tag is a prefix of the chunk `fgets` read and holds no ':' and no NUL. The value carries no such promise, which is the Findings row. |
| `Records.ParseBuffer` | tools/rscryutil.c:59-72 | The two split loops never report "no line". An accepted tag fits `EIF_MAX_RECTYPE_LEN` and an accepted value is shorter than `EIF_MAX_VALUE_LEN`. |
| `Records.ParseRecord` | tools/rscryutil.c:55-72 | The split of one line read into a zero-filled buffer: never "no line", and both fields within their bounds. |
| `Records.NextRecord` | tools/rscryutil.c:47-74 | eiGetRecord on the metadata file: code 1 exactly at end of file; otherwise it consumes at least one character and returns fields within their bounds. |
| `Records.TagStopSpec` | tools/rscryutil.c:59-64 | The tag loop stops at a ':' or at the bound, having seen no ':' and no NUL before it; it reports a NUL exactly when one comes within the bound before any ':'. |
| `Records.ValueStopSpec` | tools/rscryutil.c:66-71 | The value loop stops at a newline or at the bound, having seen no newline and no NUL before it; it reports a NUL exactly when one comes before any newline within the bound. |
| `Records.RecordFields` | tools/rscryutil.c:59-71 | An accepted record is read from the line itself. The tag is the prefix before the ':' (or the whole bound), holding no ':' or NUL. The value is the slice after the ':', holding no newline or NUL, and it ends at the line's own newline or at the value bound. |
| `Records.NulInTagIff` | tools/rscryutil.c:59-61 | Code 2 is returned if and only if a NUL (or the line's end) comes before any ':' within the tag bound. |
| `Records.LineRoundTrip` | tools/rscryutil.c:47-74 | A line `TAG:VALUE\n` whose fields fit their bounds and hold no NUL, newline or ':' in the tag fits the buffer and is read back as exactly that tag and value. |
| `Records.LineEndAtNewline` | tools/rscryutil.c:55 | `fgets` ends a line just after its first newline when that is within the room of the buffer. |
| `Records.LineEndAtEof` | tools/rscryutil.c:55 | `fgets` ends the last line at end of file when the line has no newline and fits. |
| `Records.LineAtSplit` | tools/rscryutil.c:55 | Two lines written one after the other are found at consecutive positions of the metadata file. |
| `Records.NextRecordOfLine` | tools/rscryutil.c:47-74 | At a position holding a well-formed line, eiGetRecord returns that line's tag and value and leaves the file just after the line. |
| `Records.UnterminatedRecord` | tools/rscryutil.c:66-69 | A last line without a newline, shorter than the value bound, is refused with code 3: the value loop meets fgets's terminator. |
| `Records.UnterminatedLastLine` | tools/rscryutil.c:55-69 | The same at the end of a metadata file: eiGetRecord returns code 3 and the file is left at its end. |
| `Records.StaleTailIrrelevant` | tools/rscryutil.c:52-71 | Except on a line of exactly `EIF_MAX_RECTYPE_LEN` characters with no ':', the split of the uninitialised buffer gives the same result whatever the buffer held before `fgets`. |
| `Records.StaleTailDecides` | tools/rscryutil.c:52-71 | On a line of exactly `EIF_MAX_RECTYPE_LEN` characters with no ':', stale buffer content decides the result. A stale newline makes the line an accepted record with an empty value. A zero-filled buffer refuses it with code 3. |
| `Records.Fgets` | tools/rscryutil.c:55-57 | `fgets` either fails at end of file, leaving the buffer alone, or copies the next line and a NUL terminator into the buffer and advances the file past the line. |
| `Records.CopyTag` | tools/rscryutil.c:59-64 | The tag loop computes the tag stop of the buffer and copies the tag, NUL-terminated, into `rectype`. |
| `Records.CopyValue` | tools/rscryutil.c:65-71 | The value loop computes the value stop and copies the value, NUL-terminated, into `value`. |
| `Records.SplitRecord` | tools/rscryutil.c:59-72 | Both loops return the code of the buffer's parse; on success `rectype` and `value` hold the record's fields as C strings. |
| `Records.GetRecord` | tools/rscryutil.c:47-74 | eiGetRecord returns the code of the next record and advances the file as `NextRecord` says. On success both fields are C strings free of NUL. |
| `Validators.FiletypeStatus` | tools/rscryutil.c:83-91 | eiCheckFiletype returns 0 if and only if the record is `FILETYPE` with exactly the cookie. It passes on eiGetRecord's code when there is no record and returns 1 for any other record. |
| `Validators.CheckFiletype` | tools/rscryutil.c:76-92 | The method returns the status of the next record of the metadata file and consumes that record. |
| `Validators.FiletypeHeaderAccepted` | tools/rscryutil.c:83-91 | A metadata file starting with the `FILETYPE` line and the cookie passes the check, whatever follows, and is left just after that line. |
| `Validators.FiletypeLineShape` | tools/rscryutil.c:83-91 | A line that passes the check starts with `FILETYPE`, then ':' when the tag bound allows it, then the cookie. |
| `Validators.FiletypeAcceptedShape` | tools/rscryutil.c:83-91 | A metadata file that passes the check begins with `FILETYPE`, the ':' and the cookie. |
| `Validators.Nibble` | tools/rscryutil.c:118-121 | A character has a nibble if and only if it is '0'-'9' or 'a'-'f'. The nibble is below 16. |
| `Validators.PairByte` | tools/rscryutil.c:126-129 | The byte a pair of digits encodes has the first digit's nibble as its high four bits and the second digit's nibble as its low four bits. |
| `Validators.HexPairs` | tools/rscryutil.c:117-130 | Decoding `n` pairs of hex digits gives `n` bytes. |
| `Validators.IvFromRecord` | tools/rscryutil.c:104-132 | An accepted IV is exactly `leniv` bytes long. With no record, eiGetRecord's code is passed on. |
| `Validators.IvDecoding` | tools/rscryutil.c:104-132 | eiGetIV accepts a record if and only if it is `IV`, half its value's length (rounded down) is the block length, and every character is a lowercase hex digit. Byte k of the IV is then 16 times digit 2k plus digit 2k+1. |
| `Validators.HexDigit` | tools/rscryutil.c:118-121 | Encoding a value below 16 gives the lowercase digit that eiGetIV decodes back to it. |
| `Validators.HexEncodeShape` | tools/rscryutil.c:126-129 | The hex spelling of an IV has two digits per byte, the high nibble first. |
| `Validators.HexEncodeLowerHex` | tools/rscryutil.c:118-121 | Every digit of the spelling is one eiGetIV accepts. |
| `Validators.IvRoundTrip` | tools/rscryutil.c:117-130 | Decoding the lowercase hex spelling of any byte string gives that byte string back. |
| `Validators.HexEncodePlain` | tools/rscryutil.c:110 | The spelling has twice the bytes' length and holds no NUL or newline, so eiGetRecord carries it whole. |
| `Validators.TrailingDigitIgnored` | tools/rscryutil.c:111-130 | One extra hex digit after a valid IV does not change the decoded IV: `valueLen/2` rounds it away. |
| `Validators.IvOddLengthAccepted` | tools/rscryutil.c:111 | An IV value with an odd number of digits is accepted. Its first `2*leniv` digits give the IV. |
| `Validators.IvUppercaseRejected` | tools/rscryutil.c:118-125 | Any uppercase hex digit in the value makes eiGetIV fail with 1. |
| `Validators.IvExamples` | tools/rscryutil.c:104-132 | "0a1f" decodes to the bytes 0x0a, 0x1f for a 2-byte block and is refused for an 8-byte block. |
| `Validators.GetIV` | tools/rscryutil.c:94-133 | eiGetIV returns the IV decision's code and consumes one record. On success the first `leniv` bytes of the buffer are the IV. An odd digit count leaves its last digit's high nibble at `iv[leniv]`. Nothing above that is written. |
| `Validators.DecodeNibbles` | tools/rscryutil.c:117-130 | The nibble loop succeeds if and only if every character is a lowercase hex digit. It then writes each pair's byte and a trailing odd digit's high nibble, and nothing beyond. |
| `Validators.SpaceCount` | tools/rscryutil.c:148 | The leading run of white space that `atoll` skips. |
| `Validators.DigitCount` | tools/rscryutil.c:148 | The leading run of decimal digits that `atoll` reads. |
| `Validators.Atoll` | tools/rscryutil.c:148 | `atoll` gives a negative offset only when a '-' follows the leading white space. |
| `Validators.DecimalString` | tools/rscryutil.c:148 | The decimal spelling of an offset is non-empty and all digits. |
| `Validators.DecimalValueOfString` | tools/rscryutil.c:148 | Reading the digits of a decimal spelling gives the number back. |
| `Validators.AtollOfDecimal` | tools/rscryutil.c:148 | `atoll` of a decimal spelling, followed by anything that is not a digit, is that number. |
| `Validators.AtollOfNegative` | tools/rscryutil.c:148 | `atoll` of '-' followed by a decimal spelling and a non-digit is that number negated. Such an END value puts END below the running offset, the case `Segments.SegmentWrapsPastEnd` covers. |
| `Validators.AtollNoDigits` | tools/rscryutil.c:148 | A value starting with anything but white space, a sign or a digit is read as offset 0 rather than refused. |
| `Validators.EndFromRecord` | tools/rscryutil.c:142-150 | eiGetEND succeeds if and only if the record is `END`. It passes on eiGetRecord's code when there is no record and returns 1 for another tag. |
| `Validators.KeyLengthOk` | tools/rscryutil.c:169-170 | `strlen(key)` equals the key length only if the key's first that-many characters hold no NUL. For a key with no NUL, the test holds exactly when its length is the key length. |
| `Validators.EndRoundTrip` | tools/rscryutil.c:142-150 | An `END` record carrying the decimal spelling of an offset gives that offset back. |
| `Validators.ReadEnd` | tools/rscryutil.c:135-151 | eiGetEND returns the END decision's code and, on success, the offset; it consumes one record. |
| `Padding.FirstZero` | tools/rscryutil.c:210 | `memchr` finds the first zero byte: the bytes before it are non-zero. It finds none exactly when the chunk holds no zero byte. |
| `Padding.StripPadding` | tools/rscryutil.c:210-221 | What removePadding leaves in the first `*plen` bytes holds no zero byte and is no longer than the chunk. |
| `Padding.RemoveZerosBounds` | tools/rscryutil.c:215-219 | What the compaction keeps holds no zero byte and is no longer than the input. |
| `Padding.StripIsRemoveZeros` | tools/rscryutil.c:210-221 | Compacting from the first zero onward is the same as removing every zero byte from the chunk. |
| `Padding.StripIdempotent` | tools/rscryutil.c:210-221 | Stripping an already stripped chunk changes nothing. |
| `Padding.StripKeepsPrefix` | tools/rscryutil.c:211-213 | A chunk without a zero byte is left as it is. Otherwise the bytes before the first zero stay in place. |
| `Padding.StripExample` | tools/rscryutil.c:215-219 | `41 42 00 43 00 00` becomes `41 42 43`: zero bytes in the middle are removed as well as those at the end. |
| `Padding.Compact` | tools/rscryutil.c:213-219 | The loop moves the non-zero bytes of `buf[start..len]`, in order, down to `start`, and returns where they end. Bytes from there on are untouched. |
| `Padding.RemovePadding` | tools/rscryutil.c:203-223 | removePadding leaves the stripped chunk in the first `*plen` bytes; bytes past the new length are untouched. |
| `Segments.Rem` | tools/rscryutil.c:238 | The remainder of a size by the block length is below the block length and no larger than the size. |
| `Segments.RemIsMod` | tools/rscryutil.c:238 | That remainder is the remainder of division. |
| `Segments.ReadSize` | tools/rscryutil.c:237-238 | A read never asks for more than is left in the segment or than the 64 KiB buffer holds. It falls short of the smaller of the two by less than one block. |
| `Segments.ReadSizeAligned` | tools/rscryutil.c:238 | Every read size is a whole number of blocks. |
| `Segments.DropRemAligned` | tools/rscryutil.c:238 | A size less its remainder by the block length is a whole number of blocks. |
| `Segments.ReadSizeIsC` | tools/rscryutil.c:237-238 | The read size is `min(left, 64 KiB)` minus its remainder by the block length. |
| `Segments.LeftTillEnd` | tools/rscryutil.c:235 | `blkEnd - *pCurrOffs` stored into a `size_t`: the difference itself when it is below 2^64, and the difference plus 2^64 when it is negative. |
| `Segments.LeftTracksOffset` | tools/rscryutil.c:242 | Taking the bytes read off `leftTillBlkEnd` and adding them to the offset keeps `leftTillBlkEnd` equal to `blkEnd - *pCurrOffs` as a `size_t`. |
| `Segments.SegmentLoop` | tools/rscryutil.c:236-262 | The loop of decryptBlock advances the running offset by exactly the ciphertext bytes it reads, before padding removal. It never reads more than was left till the segment's end or past the end of the log. |
| `Segments.Segment` | tools/rscryutil.c:225-263 | decryptBlock from a fresh session reads no more than leftTillBlkEnd bytes and never past the end of the log. It advances the running offset by exactly the bytes it reads. |
| `Segments.Output` | tools/rscryutil.c:256-257 | What decryptBlock writes for its decrypted chunks holds no zero byte. |
| `Segments.OutputIsRemoveZeros` | tools/rscryutil.c:256-257 | The output is the decrypted stream with every zero byte removed, however the chunk boundaries fall, so it is never longer than that stream. |
| `Segments.SegmentStaysWithinEnd` | tools/rscryutil.c:235-242 | A segment starting at or before its END offset never carries the running offset past END. |
| `Segments.SegmentNothingToRead` | tools/rscryutil.c:239-241 | A segment whose END equals the running offset, or that starts at the end of the log, reads nothing, writes nothing and succeeds. |
| `Segments.LoopReachesEnd` | tools/rscryutil.c:236-242 | With a whole number of blocks left and that many bytes in the log, the loop reads exactly those bytes unless a decryption fails. |
| `Segments.SegmentReachesEnd` | tools/rscryutil.c:235-242 | A block-aligned segment whose bytes are all in the log ends with the running offset at END, unless a decryption fails. |
| `Segments.LoopDrains` | tools/rscryutil.c:236-242 | With more left than the log holds plus one buffer, the loop reads the log to its end unless a decryption fails. |
| `Segments.SegmentWrapsPastEnd` | tools/rscryutil.c:235 | An END offset below the running offset wraps `leftTillBlkEnd` to a huge value. The segment then reads the log to its end and carries the offset past END. |
| `Segments.LoopStep` | tools/rscryutil.c:236-262 | One turn of the loop: the read size, where the log and offset go, which chunk is decrypted under the session's chain, and how the loop stops or goes on. |
| `Segments.LoopStops` | tools/rscryutil.c:240-241 | A turn that reads nothing ends the segment with nothing more written. |
| `Segments.LoopFails` | tools/rscryutil.c:250-255 | A failed decryption ends the segment after the read, with the offset already advanced and nothing written for that chunk. |
| `Segments.LoopGoesOn` | tools/rscryutil.c:256-261 | A successful turn goes on from the next position, with the chunk's ciphertext added to the chain and its plaintext to the output. |
| `Segments.ConcatSnoc` | tools/rscryutil.c:256-257 | Adding one chunk adds its non-zero bytes to the non-zero bytes of the decrypted stream. |
| `Segments.OutputGrows` | tools/rscryutil.c:256-257 | Writing one more stripped chunk after the output so far gives the output so far followed by the non-zero bytes of all the chunks decrypted, the new one included. |
| `Segments.LoopPlainLength` | tools/rscryutil.c:239-257 | The loop never decrypts more plaintext than the ciphertext it reads. |
| `Segments.Fread` | tools/rscryutil.c:239 | `fread` reads `min(toRead, bytes left in the log)` bytes into the buffer and advances the log by as many. |
| `Segments.DecryptInPlace` | tools/rscryutil.c:244-249 | `gcry_cipher_decrypt` on the first `nRead` bytes replaces them with the decryption, or reports failure and changes nothing. |
| `Segments.Fwrite` | tools/rscryutil.c:257 | `fwrite` appends the first `nRead` bytes of the buffer to the output. |
| `Segments.DecryptChunk` | tools/rscryutil.c:244-257 | Decrypting, stripping and writing one chunk appends the chunk's plaintext with its zero bytes removed. On a failed decryption it writes nothing. |
| `Segments.Turn` | tools/rscryutil.c:239-261 | One turn of the loop reads the next chunk, advances the log, and writes the chunk's plaintext without zero bytes when decryption succeeds. |
| `Segments.DecryptBlock` | tools/rscryutil.c:225-263 | decryptBlock leaves the log, the running offset and the output exactly where `Segment` says: the offset advanced by the bytes read and the output extended by the stripped plaintext. |
| `Decryption.InitSpec` | tools/rscryutil.c:161-176 | A failure always carries a non-zero code. A success consumes the IV record and gives a session whose IV has the block length and whose key has the key length. |
| `Decryption.InitSucceedsIff` | tools/rscryutil.c:161-176 | initCrypt succeeds if and only if the block length fits the 4096-byte IV buffer, eiGetIV accepts the next record, and `strlen(key)` is the key length. The session then holds the key and the decoded IV. A block length too large fails with 1 before any record is read. |
| `Decryption.InitRejectsBadKey` | tools/rscryutil.c:167-175 | A key of the wrong length is refused whatever the metadata holds, but only after the IV record has been consumed. |
| `Decryption.InitCrypt` | tools/rscryutil.c:153-176 | The method returns the code and session of `InitSpec` and leaves the metadata file where it says. |
| `Decryption.ReadHeader` | tools/rscryutil.c:275-277 | A pass's header read either begins a segment, having consumed at least one record, or halts with a non-zero code. |
| `Decryption.RunFrom` | tools/rscryutil.c:273-280 | doDecrypt's loop moves the running offset by exactly the log bytes read. It only appends to the output and only stops with a non-zero code. |
| `Decryption.ReturnValue` | tools/rscryutil.c:271-282 | doDecrypt returns eiGetEND's code when eiGetEND stops the loop. It returns 0 when initCrypt stops it after a segment, and an undefined value when initCrypt fails in the first pass. |
| `Decryption.RunGoesOn` | tools/rscryutil.c:275-279 | A pass that begins a segment continues the loop from where that segment left the log, the offset and the output. |
| `Decryption.RunHalts` | tools/rscryutil.c:275-277 | A pass whose header read fails ends the loop with nothing more read from the log or written. |
| `Decryption.NextHeader` | tools/rscryutil.c:275-277 | initCrypt followed by eiGetEND computes `ReadHeader`. |
| `Decryption.Pass` | tools/rscryutil.c:274-279 | After one pass, the loop's outcome from the old state is either the stop it met or the loop's outcome from the new state. |
| `Decryption.DecryptSegments` | tools/rscryutil.c:266-283 | The loop ends exactly as `RunFrom` says: the same stop, the same positions, the same output. |
| `Decryption.DoDecrypt` | tools/rscryutil.c:266-283 | doDecrypt returns `ReturnValue` of the run and leaves the files and the output as the run says. |
| `Decryption.BadKeyDecryptsNothing` | tools/rscryutil.c:169-175 | With a key of the wrong length, the loop stops in its first initCrypt with nothing read from the log or written. |
| `Decryption.MetadataWalkIgnoresLog` | tools/rscryutil.c:273-280 | Which records the loop reads, how many segments it begins and why it stops depend only on the metadata, not on the log. |
| `Decryption.Trace` | tools/rscryutil.c:273-280 | Decrypting a list of recorded segments one after the other advances the offset by exactly the log bytes read. |
| `Decryption.HeaderOfRecords` | tools/rscryutil.c:275-277 | An accepted IV record followed by an accepted END record begins a segment under the key and that IV, ending at that offset. |
| `Decryption.HeaderOfLineAt` | tools/rscryutil.c:275-277 | A well-formed IV line followed by a well-formed END line begins that segment and leaves the metadata file after the END line. |
| `Decryption.HeaderOfLines` | tools/rscryutil.c:275-277 | The same, for the two lines written together. |
| `Decryption.SegmentSpelled` | tools/rscryutil.c:104-150 | The IV and END lines written for a segment are read whole and decode back to its IV and END offset. |
| `Decryption.SegmentHeader` | tools/rscryutil.c:275-277 | The first IV/END pair of well-formed metadata begins that segment and leaves the metadata at the lines of the remaining segments. |
| `Decryption.FirstSegmentLines` | tools/rscryutil.c:275-277 | Well-formed metadata holds the first segment's IV/END lines at the read position, followed by the lines of the remaining segments. |
| `Decryption.RunFirstSegment` | tools/rscryutil.c:275-279 | One pass over well-formed metadata decrypts the first recorded segment under a fresh session and continues the loop at the next IV/END pair. |
| `Decryption.RunAtMetadataEnd` | tools/rscryutil.c:275-276 | At the end of the metadata file, the loop stops in initCrypt with code 1, reading and writing nothing more. |
| `Decryption.RunOfWellFormed` | tools/rscryutil.c:273-280 | Metadata made only of well-formed IV/END pairs makes the loop decrypt exactly the recorded segments in order, as `Trace` says, and stop at the end of the metadata with code 1. |
| `Decryption.DecryptSpec` | tools/rscryutil.c:306-310 | Nothing is decrypted exactly when the first record is not the filetype cookie. Otherwise the run starts at offset 0 with the log read from its start. |
| `Decryption.DecryptFiles` | tools/rscryutil.c:306-310 | decrypt() on the opened files checks the filetype and, only if it passes, runs doDecrypt. A failed check leaves the log unread and the output unchanged. |
| `Decryption.WholeFileDecrypts` | tools/rscryutil.c:269-283 | A metadata file written as the FILETYPE line and well-formed IV/END pairs decrypts the recorded segments in order from the start of the log and stops at the end of the metadata file. |

## Left out

- libgcrypt: the block and key lengths of 3DES are fields of `Algorithm` rather than the
  library's answers. The cipher is an abstract, length-preserving function of the key, the IV
  and the ciphertext already fed to the handle, which models the CBC chain.
- `gcry_cipher_open`, `gcry_cipher_setkey` and `gcry_cipher_setiv` are not modelled, nor
  their failure paths (lines 177-199). A session that passes the key and IV checks is taken
  as set up.
- `gcry_cipher_close` (line 279) is not modelled. A new session simply replaces the old one.
- Segments.DecryptInPlace: a chunk that is not a whole number of blocks can only occur at
  the end of the log. What the library then does is left to `Algorithm`'s function.
- Segments.Fwrite: a short write (lines 258-261) is not modelled. Every write is complete.
- Segments.Fread: every read is complete up to the end of the log. Read errors are not
  modelled.
- Everything written to stderr and stdout as diagnostics is not modelled.
- Validators.ReadEnd: an `atoll` result outside `long long`/`off64_t` is not modelled. The
  offset is an unbounded integer.
- Padding.RemovePadding: the `unsigned` cast of the length (line 206) is not modelled. It is
  harmless for chunks of at most 64 KiB.
- `nPad` (line 243) is computed and never used, so it is not modelled.
- `decrypt()`: the file-name handling, `fopen`, the error message and the `fclose` calls
  (lines 285-305 and 311-320) are not modelled, and neither are `main` and option parsing
  (from line 322).
- Records.Format: the header constants are parameters. `Format.Valid` assumes that
  EIF_MAX_RECTYPE_LEN + 1 fits the `unsigned short` index `i` of eiGetRecord, and that an IV
  value cannot overrun the 4096-byte IV buffer. The model does not cover EIF_MAX_RECTYPE_LEN =
  65535. With that value, `++i` at line 66 wraps `i` to 0, and the value loop reads from the
  start of the line again.
- Segments.DecryptBlock: the relation `leftTillBlkEnd == blkEnd - *pCurrOffs (mod 2^64)` is
  proved as the lemma `LeftTracksOffset`, not carried as a loop invariant. The loop tracks
  `leftTillBlkEnd` against `SegmentLoop`.
- Validators.ReadEnd: an END value is read with C's `atoll`, as the code does. It accepts
  leading white space and a sign and yields 0 when there is no digit. An unparsable END is
  therefore offset 0, not an error.
- Records.NextRecord: uses a zero-filled buffer (see Findings). The read of an uninitialised
  buffer is kept separately as `AsWrittenRecord`.

## Findings

| source | as written | input that shows it | evidently intended | confidence | as-written member | corrected member |
|---|---|---|---|---|---|---|
| tools/rscryutil.c:52-71 | `buf` is never initialised. On a line of exactly `EIF_MAX_RECTYPE_LEN` characters with no ':', the tag loop stops at the bound. `++i` then starts the value loop one past fgets's terminator, so it reads bytes fgets did not write. | A metadata line of `EIF_MAX_RECTYPE_LEN` - 1 'x' characters plus '\n', read into a buffer whose stale byte at index `EIF_MAX_RECTYPE_LEN` + 1 is '\n'. It is accepted as a record with an empty value. In a zero-filled buffer it is refused with code 3. | The result depends only on the line: an accepted record ends at the line's own newline or at the value bound. | high; not executed | Records.StaleTailDecides | Records.RecordFields |

`Records.AsWrittenRecord` splits the buffer as the code leaves it. `Records.StaleTailDecides`
exhibits the discrepancy, and `Records.StaleTailIrrelevant` shows it is the only line shape
where stale bytes matter. The rest of the model reads records with `Records.ParseRecord`, whose
buffer is zero-filled. `Records.RecordFields` proves the intended property of it, and
`Records.GetRecord` zero-fills its buffer to match.
