# steamnvke: a Dafny model of the SteamStub v3.1 x64 unpacker

steamnvke removes the SteamStub v3.1 DRM wrapper from 64-bit Windows
executables. This project models its core in Dafny and proves properties
of that model:

- **The byte-pattern scanner** `find_infix_windows`. A needle is a string of
  whitespace-separated hex bytes, where `??` is a wildcard. The scanner
  returns the first window of the haystack that matches.
- **The rolling XOR** `steam_xor`. It decodes little-endian words in place,
  with each word keyed by the ciphertext word before it, and returns the
  last key.
- **The detector** `check_is_variant31_x64`. It finds the `.bind` section,
  looks for the v3.x signature, finds the header-size operand through three
  alternative patterns, and checks that the operand is `0xF0`.
- **The unpacker** `strip_drm`. It decodes the 240-byte stub header that ends
  at the entry point. It looks up the payload and decodes it in a copy,
  which it then discards. When the stub encrypted the code section, it
  rebuilds that section's buffer from the 16 stolen bytes and the raw data,
  then decrypts it with AES-256: ECB for the IV, CBC for the data. Finally it
  writes a new image through a cursor:
  - the DOS header and a zeroed DOS stub;
  - the NT headers, with the entry point restored and the checksum cleared;
  - the data directories and the section headers;
  - each section body at its `PointerToRawData`;
  - the overlay.
- **The probe driver in `src/main.rs`.** It has its own `get_owner_section`,
  which returns only the section header. Its draft `strip_drm` stops after
  building the code buffer. Every failure of the draft is proved to be a
  failure of the library version with the same error, and the library
  succeeds only when the draft does. The converse does not hold: the library
  can also fail when it reads any section for the output, which the draft
  never does.

### Modules

| module | what it holds |
|---|---|
| `LittleEndian` | byte, `u32` and `u64` encodings |
| `Bytes` | the scanner: tokenising, hex parsing, matching, first match |
| `ScannerProperties` | round trips of the needle syntax and the scanner's unit tests |
| `Lib` | the loop-based `find_infix_windows` of `src/lib.rs` |
| `RollingXor` | word-level decoding and its inverse encoder |
| `RollingXorProperties` | chaining, the seed case and the test vector of `steam_xor` |
| `Records` | a generic `repr(C)` record codec |
| `StubHeaders` | the `SteamStub64Var31Header` layout |
| `Needles` | the four needles of the detector |
| `Pe` | the parsed-image view |
| `Aes` | the cipher interface |
| `Drm` | `bind_section`, `get_owner_section`, the detector |
| `Unpack` | the `strip_drm` pipeline and the cursor-driven writer |
| `Cursors` | `Cursor<Vec<u8>>` writes and replay of a write list |
| `OutputLayout` | where each part of the input ends up in the output |
| `MainRs` | the probe driver |

All integers are unbounded in Dafny. The source's `u32` and `u64` are
written out as `bv32` and `bv64`. A place where the source would overflow
and panic becomes a precondition.

## Model

| member | source | states |
|---|---|---|
| Bytes.Tokens | src/bytes.rs:7-9 | every token produced by splitting on whitespace is non-empty and holds no whitespace |
| Bytes.TokensSplit | src/bytes.rs:8-9 | splitting at a whitespace character splits the token list: tokens of `a c b` are tokens of `a` followed by tokens of `b` |
| Bytes.TokensOfWord | src/bytes.rs:8-9 | a non-empty run without whitespace is exactly one token |
| ScannerProperties.TokensOfJoin | src/bytes.rs:8-9 | joining non-empty, whitespace-free tokens with spaces and splitting again gives back the same tokens |
| Bytes.HexDigitValue | src/bytes.rs:15 | a hex digit's value is below 16 |
| Bytes.ParseHexPair | src/bytes.rs:15 | two hex digits parse to the byte 16·hi + lo |
| ScannerProperties.HexTokenRoundTrip | src/bytes.rs:11-16 | the two-digit hex spelling of any byte parses back to an unmasked match of that byte |
| Bytes.ParseTokens | src/bytes.rs:10-18 | a parsed pattern has one element per token |
| ScannerProperties.ExactNeedleRoundTrip | src/bytes.rs:7-18 | a needle spelled from a byte string parses to the unmasked pattern of exactly those bytes |
| ScannerProperties.ExactPatternMatches | src/bytes.rs:24-31 | an unmasked pattern matches at `i` exactly when the window at `i` equals its bytes |
| Bytes.FirstMatchFrom | src/bytes.rs:24-31 | the result is a match at or after the start, with no match between the start and it; `None` exactly when no later position matches |
| Bytes.FirstMatch | src/bytes.rs:24-31 | the result is the least matching position; `None` exactly when no position matches |
| Bytes.FindInfixWindows | src/bytes.rs:1-32 | the result matches the parsed needle and no earlier window does; `None` exactly when no window matches |
| ScannerProperties.BlankNeedle | src/bytes.rs:1-22 | an empty or all-whitespace needle has no tokens and is found at 0 in any haystack |
| ScannerProperties.FindInfixWindowsIs | src/bytes.rs:24-31 | a match at `i` with none before it makes the scanner return `Some(i)` |
| ScannerProperties.NotFound | src/bytes.rs:24-31 | when no window matches, the scanner returns `None` |
| ScannerProperties.FoundSecond | src/bytes.rs:24-31 | a match at 1 and none at 0 makes the scanner return `Some(1)` |
| ScannerProperties.BasicMatch | src/bytes.rs:62-65 | `11 22` is found at 1 in `00 11 22 33 44` |
| ScannerProperties.MaskedMatch | src/bytes.rs:68-71 | `11 ?? 33` is found at 1 |
| ScannerProperties.NoMatch | src/bytes.rs:74-77 | `11 22 55` is not found |
| ScannerProperties.EmptyNeedle | src/bytes.rs:80-83 | the empty needle is found at 0 |
| ScannerProperties.MultipleMasks | src/bytes.rs:86-89 | `11 ?? ?? 44` is found at 1 |
| Lib.WindowMatches | src/lib.rs:28-31 | the loop's verdict is true exactly when every unmasked pattern byte equals the window byte |
| Lib.FindInfixWindows | src/lib.rs:3-33 | the loop over windows returns the same result as the scanner of `src/bytes.rs` |
| Lib.Unique | src/lib.rs:26-32 | any answer that is a match, has no earlier match, and is `None` only when nothing matches is the scanner's answer |
| RollingXor.DecodeWords | src/bytes.rs:44-54 | each plain word is the cipher word XOR the previous cipher word (the key for the first); the returned key is the last cipher word, or the key if there are none |
| RollingXor.EncodeWords | src/bytes.rs:44-52 | each cipher word is the plain word XOR the previous cipher word, the inverse chain |
| RollingXor.DecodeEncode | src/bytes.rs:44-52 | decoding an encoding gives the plain words back |
| RollingXor.EncodeDecode | src/bytes.rs:44-52 | encoding a decoding gives the cipher words back |
| RollingXor.DecodeWordsSplit | src/bytes.rs:44-54 | decoding a concatenation is decoding the first part, then the second part with the first part's returned key |
| RollingXor.SteamXor | src/bytes.rs:34-55 | `steam_xor` returns a buffer as long as its input; `RollingXor.SteamXorWords` states what it holds |
| RollingXor.SteamXorWords | src/bytes.rs:34-55 | `steam_xor` leaves the skipped seed word and every byte past the last word unchanged; each decoded word is the data word XOR its chain key; it returns the last data word, or the seed when nothing was decoded |
| RollingXor.SpliceFrame | src/bytes.rs:44-52 | decoding words `x..m` leaves the bytes before word `x` and from word `m` on unchanged |
| RollingXor.SpliceWord | src/bytes.rs:46-50 | word `k` of the decoded data is the data word XOR the seed (for the first word) or the previous data word |
| RollingXor.SpliceKey | src/bytes.rs:50-54 | the key after decoding words `x..m` is the last data word, or the seed if there are none |
| RollingXor.WordBytesOfWords | src/bytes.rs:46-48 | re-encoding the words read from a byte range gives back that range |
| RollingXor.WordsOfWordBytes | src/bytes.rs:46-48 | reading back the words of an encoded word list gives the list |
| RollingXorProperties.SteamXorChain | src/bytes.rs:34-55 | decoding a buffer in one call equals decoding its first `4b` bytes and then the rest, seeded with the key the first call returned |
| RollingXorProperties.ChainDefined | src/bytes.rs:38-54 | both halves of such a split are valid inputs to `steam_xor` |
| RollingXorProperties.SpliceSplit | src/bytes.rs:44-54 | decoding a word range equals decoding its two halves in sequence |
| RollingXorProperties.SeedOnly | src/bytes.rs:38-41 | with key 0 and size 4, the data is unchanged and its first word is returned |
| RollingXorProperties.SteamXorFourWords | src/bytes.rs:44-52 | with a nonzero key and size 16, the first four words are decoded and the rest of the buffer is unchanged |
| RollingXorProperties.SteamXorTestVector | src/bytes.rs:92-99 | `steam_xor("Be myslf no matter what.", 16, 0xDEADBEEF)` returns 1953784173 and gives the bytes `addb8db3…2e` |
| LittleEndian.U32RoundTrip | src/bytes.rs:46-48 | reading back the little-endian bytes of a `u32` gives the value |
| LittleEndian.U32BytesOfRead | src/bytes.rs:46-48 | writing back a `u32` read from four bytes gives those bytes |
| LittleEndian.U64RoundTrip | src/drm.rs:16-46 | the same round trip for `u64` fields |
| LittleEndian.U64BytesOfRead | src/drm.rs:16-46 | the same inverse round trip for `u64` fields |
| LittleEndian.WriteThenRead | src/bytes.rs:46-48 | a word written at `at` reads back at `at` |
| LittleEndian.WriteU32AtOther | src/bytes.rs:46-48 | a word written at `at` does not change a word read at a disjoint offset |
| LittleEndian.WriteU32AtFrame | src/bytes.rs:46-48 | writing a word changes only its four bytes |
| LittleEndian.Low32 | src/drm.rs:206 | `as u32` on a `u64` keeps its low 32 bits |
| Records.DecodeEncode | src/drm.rs:16-46 | decoding the bytes of encoded field values gives the values back, and the encoding has the layout's size |
| Records.EncodeDecode | src/drm.rs:16-46 | encoding the decoded fields gives back the layout-sized prefix of the bytes |
| Records.DecodeField | src/drm.rs:16-46 | field `k` of a decoded record is read from the bytes at the field's offset |
| Records.ReadFieldBytes | src/drm.rs:16-46 | reading a field from its encoding gives the field back |
| Records.FieldBytesOfRead | src/drm.rs:16-46 | encoding a field read from bytes gives those bytes |
| Records.SizeSplit | src/drm.rs:16-46 | a layout's size is the size before a field, plus the field's width, plus the size after it |
| StubHeaders.DecodeEncode | src/drm.rs:16-46 | the header encodes to 240 bytes and decodes back to itself |
| StubHeaders.EncodeDecode | src/drm.rs:16-46 | 240 bytes decode to a header that encodes back to the same bytes |
| StubHeaders.FieldOffsets | src/drm.rs:18-38 | the fields the unpacker reads sit at their `repr(C)` offsets: signature 4, bind_section_offset 24, original_entry_point 32, payload_size 44, flags 60, code_section_virtual_address 72, aes_key 88, aes_iv 120, stolen data 136 |
| StubHeaders.RunSizes | src/drm.rs:18-45 | the five runs of consecutive fields, with no padding anywhere, have sizes 32, 28, 28, 112 and 40, which add up to the 240 bytes of the header |
| StubHeaders.FromValuesOfValues | src/drm.rs:16-46 | assembling a header from its field values gives the header |
| StubHeaders.ValuesOfFromValues | src/drm.rs:16-46 | the field values of an assembled header are the values it was assembled from |
| Drm.WithoutNuls | src/drm.rs:74-77 | filtering out NULs never lengthens the name and leaves no NUL; `Drm.WithoutNulsKeeps` and `Drm.WithoutNulsAppend` fix what it keeps |
| Drm.WithoutNulsKeeps | src/drm.rs:74-77 | a name without NULs is kept whole, and a name of NULs only becomes empty |
| Drm.WithoutNulsAppend | src/drm.rs:74-77 | filtering a concatenation is filtering each part and concatenating, so the non-NUL bytes are kept in order |
| Drm.PaddedBind | src/drm.rs:74-78 | the NUL-padded 8-byte name `.bind\0\0\0` filters to `.bind` |
| Drm.PaddedBindIsBind | src/drm.rs:73-79 | a section header whose name field is `.bind` padded with NULs is recognised as `.bind` |
| Drm.FirstBindFrom | src/drm.rs:73-81 | the search returns the first `.bind` section at or after the start; `None` exactly when there is none |
| Drm.BindSection | src/drm.rs:72-84 | the result is the library's answer for the first section named `.bind`, or `Err(Null)` when there is none; `src/main.rs:49-61` is the same function |
| Drm.OwnerFrom | src/drm.rs:87-95 | the search returns the first section at or after the start whose range holds the RVA; `None` exactly when there is none |
| Drm.GetOwnerSection | src/drm.rs:86-97 | the result is the index and header of the first section holding the RVA (size `VirtualSize`, or `SizeOfRawData` when that is 0); `None` exactly when none does |
| Drm.Priority | src/drm.rs:106-109 | the first pattern's offset wins, then the second's, then the third's plus 5; `None` only when all three fail |
| Drm.FindIsFirstMatch | src/drm.rs:103-108 | a scan for a well-formed needle is the first match of its parsed pattern |
| Drm.OffsetPriority | src/drm.rs:106-109 | the header-size offset is the priority choice among the first matches of the three patterns |
| Drm.OffsetInWindow | src/drm.rs:106-112 | the four bytes read at offset + 3 lie inside the `.bind` section, so the slice never panics |
| Drm.ReadOnWildcards | src/drm.rs:106-112 | the bytes read at offset + 3 are wildcards of whichever pattern matched, so they are the operand the patterns leave open |
| Drm.SignatureFound | src/drm.rs:103 | the signature scan succeeds exactly when the signature pattern matches somewhere |
| Drm.Judge | src/drm.rs:103-118 | the decision once the searches are done: success only with the prologue found, an offset found and `0xF0` read there; the only errors are `Encoding` and `Bounds` |
| Drm.Verdict | src/drm.rs:103-118 | once `.bind` is read, success means the `u32` read at the chosen offset + 3, inside the section, is `0xF0`; the only errors are `Encoding` and `Bounds` |
| Drm.CheckIsVariant31 | src/drm.rs:99-119 | the detector succeeds only with a readable `.bind` section; `Drm.CheckOutcomes` states its errors |
| Drm.VerdictOutcomes | src/drm.rs:103-118 | no signature gives `Encoding`; no offset gives `Encoding`; otherwise the result is `Ok` exactly when the `u32` at offset + 3 is `0xF0`, and `Bounds` when it is not |
| Drm.CheckOutcomes | src/drm.rs:99-119 | a `.bind` lookup error is returned as is; no `.bind` section gives `Null`; otherwise the verdict on the section's bytes is returned; `src/main.rs:91-115` is the same function |
| Needles.NeedlesWellFormed | src/drm.rs:103-108 | the four needles are well formed, so their `unwrap` never panics |
| Needles.SignatureParses | src/drm.rs:103 | the signature needle parses to the 14 bytes `E8 00 00 00 00 50 53 51 52 56 57 55 41 50` |
| Needles.LeaParses | src/drm.rs:106 | `48 8D 91 ?? ?? ?? ?? 48` parses to three bytes, four wildcards and a byte |
| Needles.LeaRexBParses | src/drm.rs:107 | `48 8D 91 ?? ?? ?? ?? 41` parses likewise |
| Needles.MovParses | src/drm.rs:108 | `48 C7 84 24` followed by eight wildcards and `48` parses to 13 elements |
| Unpack.HeaderXorDefined | src/drm.rs:126-127 | decoding the 240 header bytes with key 0 never reads out of range |
| Unpack.HeaderBytes | src/drm.rs:124-128 | the header window before the entry point is exactly 240 bytes, the size `bytemuck::from_bytes` needs for the header |
| Unpack.RoundUp16Bounds | src/drm.rs:137 | the rounded payload size is a multiple of 16, at least the size, and at most 15 more |
| Unpack.RoundUp16Zero | src/drm.rs:137-138 | only an empty payload rounds to 0, so only then is the decode skipped |
| Unpack.PayloadXorDefined | src/drm.rs:138-142 | decoding a non-empty rounded payload never reads out of range |
| Unpack.CodeBuffer | src/drm.rs:153-168 | the buffer is the stolen bytes followed by the section's raw bytes from the file |
| Unpack.StolenBlock | src/drm.rs:153-157 | 16 stolen bytes plus whole blocks of raw data is whole blocks, so the CBC `unwrap` never panics |
| Unpack.DecryptSectionOutcomes | src/drm.rs:152-186 | a section without raw data gives nothing; otherwise only the file-offset lookup can fail; on success the plaintext is 16 + `SizeOfRawData` bytes long and is the ECB-decrypted IV's CBC decryption of the stolen bytes followed by the section's raw bytes at its file offset |
| Unpack.DecryptCode | src/drm.rs:148-188 | a decrypted result names a section that holds the code RVA, and only when the stub encrypted the code; `Unpack.DecryptCodeOutcomes` states its content |
| Unpack.DecryptCodeFails | src/drm.rs:148-188 | the code stage fails exactly when the encrypted code section's data cannot be located |
| Unpack.DecryptCodeOutcomes | src/drm.rs:148-188 | unencrypted code gives nothing; a decrypted result names the section `get_owner_section` returns for the code RVA, whose raw data is non-empty, and is the decryption of the stolen bytes followed by that section's raw bytes at its file offset, 16 + `SizeOfRawData` bytes long |
| Unpack.BodiesOutcomes | src/drm.rs:216-226 | reading the bodies succeeds exactly when every section is readable, and then body `i` is the decrypted code for the code section and otherwise the section's bytes; on failure the error is that of the first unreadable section |
| Unpack.RebuildOutcomes | src/drm.rs:215-239 | writing the output succeeds exactly when every section can be read |
| Unpack.RebuildOutput | src/drm.rs:215-239 | a successful rebuild is the output over one body per section, the decrypted code replacing the code section's bytes |
| Unpack.AfterPayloadOutcomes | src/drm.rs:145-239 | after the payload, `strip_drm` succeeds exactly when the code stage does not fail and every section can be read |
| Unpack.AfterHeaderOutcomes | src/drm.rs:134-239 | a failed payload lookup is returned as is; otherwise the result is as after the payload |
| Unpack.StripDrm | src/drm.rs:121-240 | `strip_drm` succeeds only when the entry point maps into the file and the header before it carries `0xC0DEC0DF`; `Unpack.StripOutcomes` and `Unpack.RebuildOutput` state the rest |
| Unpack.StripOutcomes | src/drm.rs:121-240 | an unmapped entry point gives the library's error; a header without `0xC0DEC0DF` gives `Encoding`; otherwise `strip_drm` succeeds exactly when every later stage does |
| Unpack.StripDrmFromExe | src/drm.rs:242-245 | `strip_drm_from_exe` succeeds only when the file parses |
| Unpack.FromExeOutcomes | src/drm.rs:242-245 | a parse error is returned as is; otherwise the result succeeds exactly when `strip_drm` does on the parsed image |
| Unpack.Reconstruct | src/drm.rs:190-239 | writing through a cursor, seeking and re-seeking as the source does, gives exactly the output, which is the replay of the write list followed by the overlay |
| Unpack.WriteHeaders | src/drm.rs:190-213 | after the header writes, the buffer is the replay of the header chunks and the position is where the section headers start |
| Unpack.WriteDos | src/drm.rs:192-202 | after the DOS part, the buffer is the replay of the DOS header and stub chunks and the position is `e_lfanew` (or 64) |
| Unpack.WriteDirectories | src/drm.rs:210-213 | writing the directories appends one 8-byte chunk per directory, in order |
| Unpack.WriteSections | src/drm.rs:215-228 | the section loop appends, for each section, its header at the running position and then its body at `PointerToRawData` |
| Unpack.WriteSection | src/drm.rs:218-227 | one iteration writes the header at the position, the body at its own offset, and restores the position past the header |
| OutputLayout.NtPatchedFields | src/drm.rs:205-207 | the patched NT headers hold the low 32 bits of `original_entry_point` as the entry point and 0 as the checksum; every other byte is unchanged |
| OutputLayout.StubIsZeros | src/drm.rs:198-202 | the DOS stub is `e_lfanew - 64` zero bytes, and is absent when `e_lfanew` is at most 64 |
| OutputLayout.DosPart | src/drm.rs:192-202 | the DOS part of the output is the DOS header followed by the zeroed stub |
| OutputLayout.PrefixBytes | src/drm.rs:192-213 | the header writes produce the DOS header, the zeroed stub, the patched NT headers and the directories, back to back |
| OutputLayout.DirsAppended | src/drm.rs:210-213 | directory writes at the end of a buffer append the directories |
| OutputLayout.OutputHeaders | src/drm.rs:192-228 | when no body lands in the header region, the output starts with the DOS header, the zeroed stub, the patched NT headers, the directories and the section headers |
| OutputLayout.OutputBody | src/drm.rs:215-237 | when no later body overlaps it, body `i` sits in the output at its `PointerToRawData` |
| Unpack.Output | src/drm.rs:190-239 | the output is exactly as long as the replayed writes plus the overlay; the `OutputLayout` lemmas state where each part lands |
| OutputLayout.OverlayAppended | src/drm.rs:230-237 | the output is the replayed writes followed by the file bytes past the last section's raw data, if any |
| Cursors.WriteAt | src/drm.rs:195 | a write never shortens the buffer and extends it to the end of the written bytes |
| Cursors.WriteAtSplice | src/drm.rs:220-225 | a non-empty write at `at` is the buffer, zero-padded up to `at`, with the bytes spliced in |
| Cursors.WriteAtEnd | src/drm.rs:231-236 | writing at the end of the buffer appends |
| Cursors.WriteAtKeeps | src/drm.rs:219-227 | a write leaves the bytes before its offset unchanged |
| Cursors.WriteAtFrom | src/drm.rs:218 | a write at an offset inside the buffer puts the bytes right after the old prefix |
| Cursors.WriteAll | src/drm.rs:195 | `write_all` advances the position by the length and grows the buffer only if it writes past its end |
| Cursors.SetPosition | src/drm.rs:220 | `set_position` moves the position and leaves the buffer unchanged |
| Cursors.SeekEnd | src/drm.rs:231 | seeking to the end moves the position to the buffer's length and leaves the buffer unchanged |
| Cursors.ReplayLength | src/drm.rs:190-237 | the replayed buffer is as long as the furthest non-empty write |
| Cursors.LastWriterWins | src/drm.rs:215-228 | each byte of a replayed buffer comes from the last write covering it, or is zero padding |
| Cursors.NothingPastExtent | src/drm.rs:190-237 | no write covers a position at or past the extent |
| Cursors.Untouched | src/drm.rs:215-228 | a write that no later write overlaps survives intact in the replay |
| Cursors.Survives | src/drm.rs:215-228 | the same, when later writes cover none of its positions |
| MainRs.OwnerHeader | src/main.rs:63-74 | the probe's lookup returns a section holding the RVA, and `None` exactly when none does |
| MainRs.GetOwnerSection | src/main.rs:63-74 | the loop returns the probe's lookup result |
| MainRs.InRange | src/main.rs:65-69 | the bounded `u32` test is the unbounded range test whenever the sum does not overflow |
| MainRs.FirstOwner | src/main.rs:63-74 | the first section holding the RVA is the one returned |
| MainRs.PayloadWords | src/main.rs:132 | a non-empty rounded payload size is at least 16 and a multiple of 4 |
| MainRs.PayloadKeyIsLastWord | src/main.rs:131-138 | the key after the payload is the original key when the payload is empty, and otherwise the payload's last word |
| MainRs.LastKey | src/main.rs:137 | decoding a payload of whole words returns its last word |
| MainRs.CodeSectionData | src/main.rs:140-159 | a code buffer is produced only when the stub encrypted the code |
| MainRs.CodeSectionOwner | src/main.rs:140-154 | with the code encrypted, the buffer is the one read from the first section whose range holds the code RVA |
| MainRs.CodeSectionAbsent | src/main.rs:140-141 | with the code not encrypted, or no section holding the code RVA, nothing is read |
| MainRs.SectionData | src/main.rs:142-154 | no raw data gives nothing; otherwise the result is the file-offset lookup's error, or the stolen bytes followed by the `SizeOfRawData` bytes of the file at the section's file offset |
| MainRs.SectionAgrees | src/main.rs:142-154 | the probe's buffer for a section is the one the library decrypts |
| MainRs.CodeAgrees | src/main.rs:140-159 | the probe and the library pick the same section and the same buffer, and the library's plaintext is its decryption |
| MainRs.CodeFailsAlike | src/main.rs:140-159 | the probe's code stage fails exactly when the library's does |
| MainRs.StripDrm | src/main.rs:117-163 | the draft's `strip_drm` succeeds only when the entry point maps and the header carries the signature, and it produces a buffer only when that header says the code is encrypted |
| MainRs.ProbeAfterHeader | src/main.rs:131-162 | the stages after the signature check succeed only after the payload lookup, and produce a buffer only for encrypted code |
| MainRs.ProbeOutcomes | src/main.rs:117-163 | an unmapped entry point gives the library's error; a header without the signature gives `Encoding`; otherwise the probe succeeds exactly when its later stages do |
| MainRs.StageOutcomes | src/main.rs:131-162 | a failed payload lookup is returned as is; after it, the probe fails exactly with the code stage's error |
| MainRs.SameFailures | src/main.rs:117-163 | whenever the probe fails, the library's `strip_drm` fails with the same error, and the library succeeds only if the probe does |
| MainRs.AfterHeaderAgrees | src/main.rs:131-162 | the same one-way agreement for the stages after the signature check: each draft failure is a library failure with the same error |
| Aes.EcbDecrypt | src/drm.rs:170-174 | decrypting the IV block returns 16 bytes |
| Aes.CbcDecrypt | src/drm.rs:176-184 | decrypting whole blocks returns as many bytes |

## Left out

- AES-256 itself is not modelled. A cipher supplies ECB and CBC decryption as
  functions. The only property used is that decrypting whole blocks returns
  as many bytes. No statement is made about the plaintext's content.
- PE parsing by `pelite` is not modelled. An image supplies:
  - the header records as raw bytes;
  - `rva_to_file_offset` and `get_section_bytes`, as functions;
  - the errors of `PeFile::from_bytes`, through a parse function passed to
    `Unpack.StripDrmFromExe`. A successful parse is required to view the very
    bytes it was given, since `strip_drm` reads the header, payload, code and
    overlay from `file` itself.
- `bytemuck` and `dataview` reinterpret structs as bytes. The model instead
  decodes and encodes each little-endian field explicitly.
- `String::from_utf8_lossy` on the section name is compared bytewise. `.bind`
  is ASCII, so a lossily replaced character can never match it.
- `println!` output is left out. So is the base64 printout of the code buffer
  at `src/main.rs:156`: the model returns the buffer instead.
- `FileMap`, `file_map`, `main`, the hard-coded path and the
  `examples/main.rs` driver are left out: they are file I/O only.
- `src/lib.rs` declares `mod steamnvke;`. That module is not part of this
  model.
- Panics are preconditions. These include:
  - the `u32` overflow in `VirtualAddress + size` (`src/drm.rs:92`,
    `src/main.rs:69`);
  - `payload_size + 0x0F` (`src/drm.rs:137`);
  - `SizeOfRawData + PointerToRawData` (`src/drm.rs:233`);
  - `file_offset - 0xF0` (`src/drm.rs:124`, `src/main.rs:120`);
  - `bytemuck::from_bytes` on a header slice that is not 8-byte aligned
    (`src/drm.rs:128`, `src/main.rs:124`). The header's `u64` fields give it
    alignment 8. The model takes the copied file buffer to start on an 8-byte
    boundary, as the system allocators place it, so the precondition is that
    `file_offset - 0xF0` is a multiple of 8 (`Unpack.HeaderAligned`). A buffer
    placed otherwise would move the panic to other offsets;
  - the `u32` underflow in `AddressOfEntryPoint - bind_section_offset`
    (`src/drm.rs:135`, `src/main.rs:131`);
  - the slices of the header, the payload and the code section;
  - the AES `unwrap`s;
  - `.last().unwrap()` on an image without sections (`src/drm.rs:232`).

  Each precondition is stated only for the stages that control flow reaches.
  The model says nothing about what the program does when it panics.
- `Bytes.FindInfixWindows` requires a well-formed needle: every token is `??`
  or a `u8` in hex that `from_str_radix` accepts. `src/bytes.rs:15` unwraps
  the parse, so a malformed needle panics. The four needles of the detector
  are proved well formed.
- Unicode whitespace is modelled as the fixed list of `White_Space`
  characters that `split_whitespace` uses. No other Unicode property is
  modelled.
- RollingXorProperties.SteamXorChain: requires the key returned by the first
  half to be nonzero. With a zero key, `steam_xor` would read the next word
  as a fresh seed, and the chained call would not be one call.
- The payload is decoded in a copy whose result `src/drm.rs:142` drops. The
  model computes that decode (`Unpack.DecodePayload`, proved defined) but
  never uses it. `src/main.rs` keeps the returned key, which
  `MainRs.PayloadKeyIsLastWord` describes.
- Unpack.Reconstruct: takes every section's bytes as input, whereas
  `strip_drm` reads them inside the section loop. An error there discards the
  cursor, so the result is the same.
- OutputLayout.OutputBody: states where a body lands only when no later
  body overlaps it. With overlapping bodies, each byte comes from the last
  write covering it (`Cursors.LastWriterWins`).
- OutputLayout.OutputHeaders: assumes that no body is written into the header
  region. Otherwise that body overwrites the headers, again by
  `Cursors.LastWriterWins`.
- Cursors.WriteAll: follows the default `Write::write_all` loop, which
  stops on an empty slice before calling `write`. So an empty write leaves
  the buffer unchanged, even when the position is past its end. Recent
  standard libraries give `Cursor<Vec<u8>>` its own `write_all`, which
  zero-fills up to the position even for an empty slice. With such a
  library, a section with no bytes whose `PointerToRawData` lies past the
  buffer pads the buffer with zeros up to that offset. The model does not.
- Drm.Owns: compares unbounded sums and states the `u32` overflow as a
  precondition (`Drm.SumFits`), rather than modelling wrap-around.
  `MainRs.InRange` proves that the two agree whenever the sum fits.
- Unpack.StripDrm: its own contract states only what success needs. What it
  returns is given by `Unpack.StripOutcomes`, `Unpack.RebuildOutput` and the
  `OutputLayout` lemmas.
- MainRs.StripDrm: likewise states only what success needs. What the draft
  returns is given by `MainRs.ProbeOutcomes` and `MainRs.SameFailures`.
- Unpack.DecryptCode: states only which section a result names. Its content
  is given by `Unpack.DecryptCodeOutcomes`.
- Drm.CheckIsVariant31: states only what success needs. Its errors are given
  by `Drm.CheckOutcomes` and `Drm.VerdictOutcomes`.
- Unpack.StripDrmFromExe: states only what success needs. Its outcomes are
  given by `Unpack.FromExeOutcomes`.
