# imohash_rs — a Dafny model of the Python binding and its command line

`imohash_rs` is a Python binding around the Rust `imohash` crate. The crate
computes a fast 128-bit fingerprint of a byte buffer or a file by hashing
samples of it. The binding has two classes:

- `Hash` is an immutable `u128` digest. It has an integer form, a raw-byte
  form and a hex form.
- `Imohash` is a hasher configured with a sample threshold and a sample size.

The package also ships a small command, `python -m imohash_rs`. It hashes
files, or lines typed interactively, and prints each hash as an int, bytes
or hex.

This project models that binding and that command. The fingerprint
algorithm belongs to the crate, whose source is not part of this model.
Its `Hasher::sum` and `Hasher::sum_file` are therefore function parameters:

- `sum: (Hasher, seq<Byte>) -> U128`
- `sumFile: (Hasher, string) -> Result<U128, IoError>`

Everything the binding and the command decide around those calls is
modelled and proved, except as listed under "## Left out".

Modules, one per concern:

- `Bytes`: the byte type, `u32`/`u128`, and little-endian bytes as `u128::to_le_bytes` lays them out (`LeBytes`, with its inverse `FromLe`).
- `Hex`: the `hex` crate's `encode`, and its `decode` as the inverse.
- `Numerals`: decimal and hex numerals, with a parser. These are what Rust's `{:?}` prints for an unsigned integer, what Python's `str` prints for an `int`, and the digits in `\u{..}` escapes.
- `RustDebug`: Rust's `{:?}` on a `&str`, which the "Path is not a file" message uses, with a reader for it.
- `PyRepr`: Python's `repr` of `bytes`, which is what file mode prints for `--format bytes`, with a reader for it.
- `Errors`: the Python exceptions the binding raises.
- `HashValue`: the `Hash` class.
- `Imohash`: the `Imohash` class.
- `Cli`: `format_hash`, the interactive loop, the file jobs, and `main`.

Every rendering is paired with a reader. A lemma or an `ensures` proves that
the reader gives back the original value:

- a digest, from its bytes and from its hex;
- a `Hash` and an `Imohash`, from their `__repr__`;
- a path, from the error message;
- a hash and a path, from a printed output line.

## Where the code differs from what a reader might expect

The model follows the code in each case below.

- **Byte order.** A reader might expect the bytes of a 128-bit digest most significant first. The code serialises with `to_le_bytes` (`src/lib.rs:39`, `src/lib.rs:44`), so byte 0 of `digest()` and hex pair 0 of `hexdigest()` are the *low* byte of the value.
- **Negative sample sizes.** The `-s` help text says that a sample size below 1 means "no sampling", so a reader might expect a negative size to be accepted. The binding's parameters are `u32` (`src/lib.rs:68`), so:
  - a negative or over-large Python `int` raises `OverflowError` when the hasher is built;
  - only 0 reaches the crate.
  - `Imohash.New` models this conversion.
- **Failed file reads.** A reader might expect every file failure to surface as an I/O error (`OSError`). In the code:
  - only a failed `fs::metadata` does (`?`, `src/lib.rs:89`);
  - a failure inside `sum_file` is `.unwrap()`ped (`src/lib.rs:95`), so it reaches Python as a Rust panic (`PyError.PanicException`). An example is a regular file without read permission, whose metadata can still be read.

## Model

| member | source | states |
|---|---|---|
| `Bytes.LeBytesAt` | src/lib.rs:39 | byte `i` of the little-endian form of `v` is `(v / 256^i) % 256` |
| `Bytes.FromLeLeBytes` | src/lib.rs:39 | reading the `n` little-endian bytes of `v < 256^n` back gives `v` |
| `Bytes.LeBytesFromLe` | src/lib.rs:39 | the other direction: any `n` bytes are the little-endian form of the number they encode |
| `Bytes.LeBytesInjective` | src/lib.rs:39 | two values below `256^n` have equal byte forms exactly when they are equal |
| `Hex.Encode` | src/lib.rs:44 | `hex::encode` gives two lowercase hex digits per byte, `2n` characters in all, and characters `2i`, `2i+1` are the pair for byte `i` |
| `Hex.DecodeEncode` | src/lib.rs:44 | hex-decoding the encoded text gives back the same bytes |
| `Hex.EncodeInjective` | src/lib.rs:44 | distinct byte strings have distinct hex text (both directions) |
| `Numerals.Decimal` | src/lib.rs:60 | the decimal text of `{:?}` on an unsigned integer is all digits, non-empty, has no leading zero (so it is the one canonical numeral), and parses back to the number |
| `Numerals.ParseLeadingRender` | src/lib.rs:100-104 | a numeral followed by a non-digit reads back as that number and the text after it |
| `RustDebug.ReadQuotedDebugStr` | src/lib.rs:91 | `{:?}` of a string, followed by any text, reads back to the string and that text |
| `PyRepr.BytesRepr` | imohash_rs/__main__.py:52 | Python's bytes literal starts with `b` and a quote, ends with the same quote, and is at least 3 characters longer than the bytes; the quote is `"` exactly when the bytes contain `'` and no `"`, otherwise `'` |
| `PyRepr.ReadBytesLiteralRepr` | imohash_rs/__main__.py:52 | the printed bytes literal, followed by any text, reads back to the bytes and that text |
| `HashValue.New` | src/lib.rs:30-36 | `Hash(value)` succeeds exactly for `0 <= value < 2^128`, and then `__int__` returns `value`; otherwise it raises `OverflowError` |
| `HashValue.Digest` | src/lib.rs:38-41 | `digest()` is 16 bytes, byte `i` is `(value / 256^i) % 256` (least significant first), and decoding them little-endian gives `value` |
| `HashValue.DigestInjective` | src/lib.rs:38-41 | two hashes have equal digests exactly when they are equal |
| `HashValue.HexDigest` | src/lib.rs:43-45 | `hexdigest()` is 32 lowercase hex characters, pair `i` is the hex of digest byte `i`, and hex-decoding it gives exactly `digest()` |
| `HashValue.HexDigestNibbles` | src/lib.rs:43-45 | characters `2i` and `2i+1` of `hexdigest()` are the high and low nibble of byte `i` of the value |
| `HashValue.HexDigestInjective` | src/lib.rs:43-45 | two hashes have equal hex digests exactly when they are equal |
| `HashValue.ZeroHexDigest` | src/lib.rs:44 | the value 0 renders as 32 `'0'` characters, as the empty-input vector at tests/test_imohash_rs.py:16 shows |
| `HashValue.Int` | src/lib.rs:47-49 | `__int__()` is below `2^128` |
| `HashValue.IntOfNew` | src/lib.rs:47-49 | `__int__()` gives back exactly the value the constructor was given |
| `HashValue.BytesOf` | src/lib.rs:51-53 | `__bytes__()` equals `digest()` |
| `HashValue.Str` | src/lib.rs:55-57 | `__str__()` equals `hexdigest()` |
| `HashValue.Repr` | src/lib.rs:59-61 | `__repr__()` reads back to the same hash |
| `Imohash.ExtractU32` | src/lib.rs:67-68 | an absent argument stays absent; an `int` is accepted exactly when it fits a `u32`, else `OverflowError` |
| `Imohash.New` | src/lib.rs:66-77 | succeeds exactly when both arguments fit a `u32` (the threshold is checked first); an omitted threshold stores 131072, an omitted size 16384, a supplied value is stored unchanged, and the stored copies equal the inner hasher's settings |
| `Imohash.ExplicitDefaults` | src/lib.rs:10-11 | passing `SAMPLE_THRESHOLD` and `SAMPLE_SIZE` explicitly builds the same hasher as omitting them |
| `Imohash.Get` | src/lib.rs:79-84 | `get(data)` is the crate's fingerprint of `data`, computed with the object's recorded size and threshold |
| `Imohash.GetForFile` | src/lib.rs:86-97 | a metadata failure becomes `OSError` with that cause. A path whose metadata is not a regular file gives `FileNotFoundError("Path is not a file: " + {:?} of the path)`, and the path reads back out of the message. For a regular file, the result is the crate's `sum_file` value, or a panic carrying its error |
| `Imohash.GuardPrecedesHashing` | src/lib.rs:88-92 | when the metadata fails or is not a regular file, the result fails and is the same whatever `sum_file` would do, so the hasher is never reached |
| `Imohash.Repr` | src/lib.rs:99-105 | `__repr__()` reads back to the stored `(sample_size, sample_threshold)` pair |
| `Imohash.ReprReportsSettings` | src/lib.rs:17-19 | for a constructed hasher, `__repr__()` reports the settings the inner hasher was built with |
| `Cli.FormatHash` | imohash_rs/__main__.py:8-18 | `'int'` gives `int(hash_)`, `'bytes'` gives `bytes(hash_)`, any other format `hexdigest()`; every result still determines the hash |
| `Cli.ReadFormattedStr` | imohash_rs/__main__.py:8-18 | the `str()` of a formatted hash reads back to the same formatted value, for all three formats |
| `Cli.InteractiveReply` | imohash_rs/__main__.py:32-39 | the answer to one input line is the `str()` of the formatted `get()` of its bytes, and it reads back to that formatted hash |
| `Cli.RunInteractive` | imohash_rs/__main__.py:25-39 | one answer per input line, in input order, until the input ends; stdout is a `> ` prompt before every read, each answer on its own line, and it reads back to the formatted `get()` of each line, in order |
| `Cli.ReadTranscriptRoundTrip` | imohash_rs/__main__.py:28-39 | the prompts-and-answers text the loop writes for any sequence of hashes reads back to exactly those formatted hashes, in order |
| `Cli.ReadFileLineRoundTrip` | imohash_rs/__main__.py:52 | a file-mode line is the formatted hash, two spaces, then the path; it splits back into exactly these, whatever the path contains |
| `Cli.RunFileJob` | imohash_rs/__main__.py:46-52 | a job prints a line exactly when `get_for_file` succeeds; that line reads back to the formatted hash and the path; otherwise the job ends with `get_for_file`'s exception |
| `Cli.Threshold` | imohash_rs/__main__.py:60-65 | an absent `-t` means 131072; a supplied `-t` is used unchanged |
| `Cli.Size` | imohash_rs/__main__.py:66-71 | an absent `-s` means 16384; a supplied `-s` is used unchanged |
| `Cli.Format` | imohash_rs/__main__.py:72-77 | an absent `-f` means `'hex'`; a supplied `-f` is used unchanged |
| `Cli.SelectMode` | imohash_rs/__main__.py:107-111 | interactive mode exactly when no path is given; a conflict exactly when `-i` and a path are both given; file mode exactly when paths are given without `-i` |
| `Cli.RunCommand` | imohash_rs/__main__.py:92-125 | a setting outside `u32` escapes as the hasher's exception in every mode; otherwise a conflict prints the error to stderr, returns 1 and starts nothing; interactive mode prints the banner, starts the loop and returns 0; file mode returns 0 after submitting exactly one job per path, in list order, each with the same hasher and format |

## Left out

- The fingerprint algorithm. The head/middle/tail sampling, the 128-bit mixer and the length prefix all live in the `imohash` crate, which is not part of this model. `sum` and `sum_file` are uninterpreted parameters, so none of the test vectors' hex values is a contract here.
- Filesystem I/O. `fs::metadata` enters as a `Result<FileType, IoError>` parameter.
  - `fs::metadata` follows symbolic links, so `FileType.Symlink` never comes back from it. The code's `is_symlink()` test is modelled as written.
  - pyo3 maps an `std::io::Error` to a specific `OSError` subclass (`FileNotFoundError`, `PermissionError`, …). Here the result is `OSError` carrying the error's kind.
- Concurrency.
  - Releasing the GIL (`allow_threads`) is not modelled.
  - The thread pool is not modelled. File mode is the ordered list of jobs `main` submits, and each job's effect is `Cli.RunFileJob`. The futures are never read, so a job's exception is never reported and the exit code stays 0. The model records this as `JobResult.Raised`, and `RunCommand` never looks at it.
- Command-line parsing and printing. `argparse` (including its `choices` check on `-f` and `--help`) is not modelled, and neither is `int()` of the `-t`/`-s` strings: `Cli.Args` holds the parsed values. Output lines are returned as strings, not printed.
- Reading the interactive input.
  - The interactive loop takes the lines' UTF-8 bytes as a parameter. UTF-8 encoding of the typed text is not modelled.
  - End of input and Ctrl-C both end the sequence.
  - `RunInteractive`'s `output` holds the `> ` prompts together with the answers. Whether `input` writes the prompt itself or through a line-editing library on a terminal is not distinguished, and what a terminal echoes is not modelled.
- Missing arguments. `get(data=None)` and `get_for_file(path=None)` panic on `.unwrap()`. The model takes `data` and `path` as required parameters instead.
- `Imohash.Get`: it does not model a failure of the crate's in-memory `sum`, which the code `.unwrap()`s. Hashing a byte slice does no I/O, so that branch is treated as unreachable.
- `RustDebug.EscapeChar`: it escapes exactly as Rust does for ASCII. Rust also writes non-printable and grapheme-extending non-ASCII characters as `\u{..}`, using Unicode tables that are not modelled. Such characters pass through unchanged here.
- `Errors.PyError.OverflowError`: it names the parameter whose conversion failed so that the model can state which check comes first. Python's message does not name it.
- Module plumbing: pyo3 class registration, `__version__`, and the re-exports in `imohash_rs/__init__.py`.
