# kvrs data-file reader, modelled in Dafny

kvrs is a single-file key-value store. It has a file format, and a `Storage`
type that opens a data file from bytes. This project models that reader and
the error types its results are expressed in.

The data file starts with a 9-byte prefix:
- an 8-byte identifier, `c4 b7 d1 b5 c5 97 c5 a1` (the big-endian `u64`
  `IDENTIFIER`);
- one version byte, which must not exceed `OLDEST_VERSION = 1`.

Bytes 9..17 hold the big-endian position `p` of the index section. At `p` the
section holds an 8-byte big-endian length `L`, followed by `L` bytes of
postcard-encoded index (`IndexMap<Vec<u8>, u64>`). Storage offers:
- `check_prefix`, which validates the prefix;
- `load_index`, which reads the index section;
- `from_vec`, which runs both in order and keeps the first error;
- `serialize`, which concatenates the postcard encodings of the identifier,
  the version, the index and each vacant block.

Layout of the project:
- `format.dfy` (module `Format`) has the fixed-width integer types, the two
  constants, and big-endian reading (`BigEndian`) and writing
  (`ToBigEndian`, `U64ToBigEndian`).
- `errors.dfy` (module `Errors`) has `StorageError`, `DataFormatError`, the
  `Result`/`Option` wrappers, and the `Display` messages.
- `io.dfy` (module `Io`) is a class `Cursor` that models
  `std::io::Cursor<Vec<u8>>`: a buffer plus a mutable read position, with
  `read_exact`, `read_u64::<BigEndian>`, `read_u8` and `seek`.
- `storage.dfy` (module `Kvrs`) has the `Storage` class. Its methods
  `CheckPrefix`, `LoadIndex` and `FromVec` follow the source step by step on
  a `Cursor`. `Serialize` follows the source's loop over the vacant blocks.

Each method is proved against a specification function:
- `PrefixCheck` is the outcome of the prefix check on the unread bytes.
- `IndexLoad` is the outcome of loading the index from the whole buffer.
- `EncodeBlocks` is the concatenated encoding of the vacant blocks.

Lemmas state what these functions mean: which inputs are accepted, which
error each rejected input gets, independence from trailing bytes, and exactly
which bytes reach the decoder.

The postcard codec is a foreign library. It is the `Postcard` parameter, a
record of encoder functions and one decoder. Each returns `None` on failure,
so every framing result holds for every codec.

Facts about the format as the code reads it:
- The header is 17 bytes: 8 identifier bytes, 1 version byte and an 8-byte
  index position. There is no free-list position.
- The identifier error is `MissedIdentifier`.
- The index maps each key to one `u64` position.
- `serialize` writes no index position, so its output does not have the
  layout that `from_vec` reads. No round trip between the two is claimed.

## Model

| member | source | states |
|---|---|---|
| `Format.BigEndian` | src/lib.rs:63-64 | the number read from `k` bytes, most significant first, is below 256^k |
| `Format.ToBigEndian` | src/lib.rs:210 | writing a number below 256^k as big-endian bytes gives exactly `k` bytes |
| `Format.U64ToBigEndian` | src/lib.rs:209-210 | `to_be_bytes` of a `u64` gives 8 bytes |
| `Format.BigEndianOfToBigEndian` | src/lib.rs:209-210 | reading back the big-endian bytes written for `n` gives `n` |
| `Format.BigEndianOfU64ToBigEndian` | src/lib.rs:209-210 | reading back the 8 bytes `to_be_bytes` writes for a `u64` gives that `u64` |
| `Format.ToBigEndianOfBigEndian` | src/lib.rs:63-64 | writing the number read from `s` back to `|s|` bytes gives `s` |
| `Format.BigEndianInjective` | src/lib.rs:63-67 | two byte strings of equal length read as the same number if and only if they are equal |
| `Format.IdentifierIsBigEndianOfItsBytes` | src/lib.rs:14-17 | `IDENTIFIER` = 14175028930806269345 is the big-endian reading of `c4 b7 d1 b5 c5 97 c5 a1` |
| `Format.IdentifierBytesExactly` | src/lib.rs:63-67 | 8 bytes read as `IDENTIFIER` if and only if they are `c4 b7 d1 b5 c5 97 c5 a1` |
| `Errors.Decimal` | src/error.rs:46-49 | a number formatted with `{}` is a non-empty string of decimal digits with no leading zero, one digit exactly below 10 |
| `Errors.DecimalValueOfDecimal` | src/error.rs:46-49 | the decimal text of `n` reads back as `n` |
| `Errors.DecimalInjective` | src/error.rs:46-49 | two numbers have the same decimal text if and only if they are equal |
| `Errors.DataFormatMessage` | src/error.rs:40-52 | `MissedIdentifier` shows "Missing identifier at the beginning of the data file."; `IncorrectVersion(n)` shows the fixed sentence with `n` in decimal, then ". The older version has the number 1" |
| `Errors.StorageMessage` | src/error.rs:19-28 | `IO(k)` shows the text of `k`; `DataFormat(e)` shows "Data format error: " followed by `e`'s message; `FailedLoadIndex` shows "Failed to load index"; `SerializationError` shows "Failed to serialize something" |
| `Errors.IncorrectVersionMessageInjective` | src/error.rs:46-49 | two incorrect-version messages are equal if and only if the versions are |
| `Errors.DataFormatMessageInjective` | src/error.rs:44-50 | two data format errors have the same message if and only if they are equal |
| `Errors.StorageMessageInjective` | src/error.rs:21-26 | two storage errors other than I/O have the same message if and only if they are equal |
| `Errors.IncorrectVersionEquality` | src/error.rs:30-38 | `IncorrectVersion(a) == IncorrectVersion(b)` if and only if `a == b` (derived structural equality) |
| `Errors.IncorrectVersion123Message` | src/error.rs:46-49 | the version byte 123 of the test vector is reported as "Incorrect version number of the data file format: 123. The older version has the number 1" |
| `Io.Cursor.constructor` | src/lib.rs:50 | a new cursor holds the buffer at position 0 |
| `Io.Cursor.ReadExact` | src/lib.rs:97-99 | reading `n` bytes succeeds with the next `n` unread bytes and advances by `n` exactly when `n` bytes remain; otherwise it fails with `UnexpectedEof` |
| `Io.Cursor.ReadU64BigEndian` | src/lib.rs:63-65 | with 8 unread bytes, returns their big-endian value and advances by 8; otherwise `UnexpectedEof` |
| `Io.Cursor.ReadU8` | src/lib.rs:71 | with an unread byte, returns it and advances by 1; otherwise `UnexpectedEof` |
| `Io.Cursor.SeekFromStart` | src/lib.rs:83-84 | seeking from the start sets the position, even past the end |
| `Kvrs.VacantBlock.Serialize` | src/lib.rs:136-138 | a block serializes to its encoder's bytes when the encoder succeeds, and to `SerializationError` otherwise |
| `Kvrs.Storage.constructor` | src/lib.rs:53-57 | a store holds the given cursor and index and no vacant blocks |
| `Kvrs.Storage.CheckPrefix` | src/lib.rs:62-79 | the result is the prefix check of the unread bytes, read from the current position; the position advances by 9 on success, by 8 when the identifier is wrong or the version byte is missing, and not at all when the identifier cannot be read |
| `Kvrs.Storage.LoadIndex` | src/lib.rs:82-103 | the result is the index load of the whole buffer, whatever the starting position; on success the position is the end of the index payload |
| `Kvrs.Storage.FromVec` | src/lib.rs:49-58 | the result is the prefix error if there is one, else the index error if there is one, unchanged; otherwise a fresh store over the buffer, holding the loaded index and no vacant blocks, positioned after the index |
| `Kvrs.Storage.Serialize` | src/lib.rs:105-122 | succeeds exactly when every encoder succeeds, with enc(IDENTIFIER) ++ enc(OLDEST_VERSION) ++ enc(index) ++ the block encodings in list order; any failure is `SerializationError` |
| `Kvrs.PrefixCheck` | src/lib.rs:62-79 | the outcome of `check_prefix` on the unread bytes: `IO` below 8 bytes, then `MissedIdentifier`, then `IO` without a version byte, then `IncorrectVersion(v)` for `v > 1`, else `Ok`; the lemmas below state what it means |
| `Kvrs.IndexLoad` | src/lib.rs:82-103 | the outcome of `load_index` on the whole buffer: `IO` when the position, the length or the payload does not fit, `FailedLoadIndex` when the decoder rejects the payload, else the decoded index; the lemmas below state what it means |
| `Kvrs.EncodeBlocks` | src/lib.rs:116-118 | the block encodings concatenated in list order, or `None` when one fails; the lemmas below state what it means |
| `Kvrs.PrefixAcceptedExactly` | src/lib.rs:62-79 | the prefix is accepted if and only if there are at least 9 bytes, the first 8 are the identifier's, and byte 8 is at most `OLDEST_VERSION` |
| `Kvrs.PrefixMissedIdentifier` | src/lib.rs:67-69 | 8 or more bytes not starting with the identifier yield `DataFormat(MissedIdentifier)`, whatever follows (the version is not read) |
| `Kvrs.PrefixIncorrectVersion` | src/lib.rs:71-76 | the identifier followed by a byte `v > 1` yields `DataFormat(IncorrectVersion(v))` with that byte |
| `Kvrs.PrefixShortInput` | src/lib.rs:63-71 | the check fails with `IO(UnexpectedEof)` if and only if the input is shorter than 8 bytes or is exactly the 8 identifier bytes |
| `Kvrs.PrefixIgnoresTail` | src/lib.rs:151-157 | bytes after the version byte never change the outcome |
| `Kvrs.PrefixCheckExamples` | src/lib.rs:146-196 | the outcomes of the prefix test vectors, with and without their trailing bytes |
| `Kvrs.IndexLoadReadsSection` | src/lib.rs:83-101 | if bytes 9..17 hold `p`, and at `p` there are the 8-byte length of a payload and then that payload, loading decodes exactly that payload (`FailedLoadIndex` if the decoder rejects it) |
| `Kvrs.IndexLoadIgnoresTail` | src/lib.rs:218-219 | unless loading ran out of input, appending bytes never changes the result |
| `Kvrs.IndexLoadTruncated` | src/lib.rs:93-99 | cutting a loadable buffer anywhere before the end of its index payload makes loading fail with `IO(UnexpectedEof)` |
| `Kvrs.IndexLoadFailedDecode` | src/lib.rs:101 | loading gives `FailedLoadIndex` if and only if the section fits in the buffer and the decoder rejects its payload |
| `Kvrs.WellFormedFileLoads` | src/lib.rs:205-219 | a file with the identifier, a version of at most 1, the index position, any gap, the framed payload and any tail passes the prefix check and loads the decoded payload |
| `Kvrs.EncodeBlocksSucceedsIff` | src/lib.rs:116-118 | the vacant blocks encode if and only if every block encodes |
| `Kvrs.EncodeBlocksAppend` | src/lib.rs:116-118 | the encoding of two block lists one after the other is their encodings in that order |
| `Kvrs.EncodeBlocksSingle` | src/lib.rs:136-138 | a one-block list encodes as that block's own encoding |

## Left out

- `Storage::from_file` (src/lib.rs:30-45): it opens an OS file, which is I/O. Its parsing is the same `check_prefix`/`load_index` sequence that `FromVec` models on a cursor.
- I/O error kinds other than `UnexpectedEof`: a cursor can produce no other kind, and the seek cannot fail, so the seeks return no result here. Files could produce other kinds, but files are not modelled.
- The text of `IO(kind)`: it is `std::io::ErrorKind`'s `Display`, a foreign function, so `StorageMessage` takes it as the parameter `ioText`.
- Postcard encoding and decoding: a foreign library. It is the `Postcard` parameter, with no assumption about the bytes it produces.
- Kvrs.Storage.LoadIndex: states the cursor position only on success. The position after a failed read is never used, because every failure is returned to the caller at once.
- Io.Cursor.ReadExact: a failed read leaves the position unchanged. Some versions of the standard library move it to the end instead, which cannot be observed here for the same reason.
- Kvrs.IndexLoad: assumes a 64-bit `usize`, where the cast `index_len as usize` (src/lib.rs:97) keeps `L` whole. On a 32-bit target the cast keeps `L mod 2^32`, so the source would read fewer bytes than the model.
- The zeroed buffer of `L` bytes that `load_index` allocates before reading (src/lib.rs:97): the model checks `L` against the bytes that remain and reports `IO(UnexpectedEof)`. Allocating for a huge corrupt `L` may abort the process, and that is not modelled.
- The `mem::size_of` capacity hint in `serialize` (src/lib.rs:114-115): it only affects allocation.
- The CLI (`src/kvrs.rs`) and the handler table (`src/handlers.rs`): argument parsing and printing, and four handlers whose bodies are `todo!()`.
- CRUD operations, the vacant-block allocator, compaction and footer rewriting: nothing in the source implements them. `VacantBlock` is only a record that `serialize` encodes.
