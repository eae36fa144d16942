# PoC1 to PoC2 plot converter, modelled in Dafny

This project models the core of `poc1to2.rust/src/main.rs`, a converter for
proof-of-capacity plot files. A PoC1 "optimized" plot of `n` nonces is a file of
`n * 262144` bytes. It is made of 4096 blocks of `n * 64` bytes. Block `b` holds
scoop `b` of every nonce: one 64-byte record per nonce, which is two 32-byte
hashes. The PoC2 layout is reached by exchanging the second hash of each record
in block `b` with the second hash at the same place in block `4095 - b`. The
first hashes stay where they are.

The model has three parts.

- **Name decoding** (`Plot::new`), in the `PlotName` module.
  - The plot's path string is split on `_`.
    - Fields 0 and 1 are parsed as `u64`: the account id and the nonce offset.
    - Fields 2 and 3 are parsed as `i64`: the nonce count and the stagger.
  - The plot is then checked against the file system:
    1. The path exists.
    2. The path is a file.
    3. The stagger equals the nonce count.
    4. The file length equals `nonces * 262144`.
    5. The out directory, if one is given, is a directory.
  - The answers of the file system are an input (`FsFacts`).
  - Each `panic!` of the source is one `PlotError` value. The checks run in the source's order, so the first failing check decides the error.
- **The PoC2 name** (`poc2_name`): `id_offset_nonces`, with the stagger dropped.
- **The conversion loop** (`Plot::convert`), in the `Convert` module. It is imperative Dafny.
  - The plot file is an `array<byte>`, and so are the two block buffers and the per-record hash buffer.
  - Seek-then-read and seek-then-write are slice copies between arrays.
  - `ConvertInto` runs the 2048 iterations. It is proved to leave exactly `Converted(original)` in the destination:
    - in place, when source and destination are the same array;
    - as a copy, when they are different arrays. In that case the source is also proved unchanged.
  - `Converted`, in `Geometry`, is the specification: the PoC2 bytes as a function of the PoC1 bytes. Its properties are proved as lemmas:
    - it is an involution;
    - it exchanges second hashes and keeps first hashes;
    - the forward and mirrored ranges partition the file.

Modules, in dependency order:

- `Results`: `Option`, `Result`.
- `Decimal`:
  - rendering with `to_string`;
  - parsing, modelled on Rust's integer `FromStr`: an optional sign, with `-` only for `i64`; at least one ASCII digit; leading zeros allowed; a range check.
- `Fields`: `str::split("_")`, join, and their round trips.
- `Geometry`: the layout constants, the `byte` type, block arithmetic, `Mirror` and `Converted`.
- `PlotName`: `NewPlot`, its two stages `DecodeName` and `CheckFile`, `Poc2Name` and the rename and copy targets.
- `Convert`: the array methods and `ConvertPlot`, which picks between the two modes.

How some source behaviour is modelled:

- **Overflow.** The product `nonces * NONCE_SIZE` is computed in `i64`. The model takes the debug-build behaviour: an overflow panics, giving `SizeOverflow`. The comparison `size != exp_size as u64` uses the two's-complement reinterpretation `AsU64`. As a result, a plot with a negative nonce count can only be accepted with a file of at least 2^63 bytes (`AcceptedSize`).
- **The split and directories.** The split runs on the whole path string, as the source does. A directory in front of the file name therefore becomes part of the first field, or of later fields when the directory's name contains `_`. A `/` in field 0 gives `BadId` (`DirectoryPrefixRejected`); a `/` in a later parsed field gives that field's error (`FieldErrors`). A directory named `<id>_<offset>_<n>_<n>_` makes the plot inside it accepted with those fields (`NestedPlotAccepted`). The source's test uses a bare file name.
- **Copying onto the plot itself.** `File::create` on the copy target truncates whatever is there. When the target is the plot's own path (`CopyTargetCanBePlot`), the loop then reads back the zeros that preallocation wrote, so the plot ends up all zeros. `ConvertPlot` states this case separately.
- **Order of checks.** The existence and file-type checks come before the stagger check, as in the source.

## Model

| member | source | states |
|---|---|---|
| Geometry.LayoutConstants | poc1to2.rust/src/main.rs:10-13 | the scoop size is two hashes (64 bytes), the nonce size is 4096 scoops (262144 bytes), and the loop's 2048 pairs cover the 4096 scoops |
| Geometry.Mirror | poc1to2.rust/src/main.rs:110-118 | the mirrored offset of `i` is in the file, at the same place within its block, in block `4095 - b` |
| Geometry.MirrorInvolution | poc1to2.rust/src/main.rs:109-118 | mirroring an offset twice gives the offset back |
| Geometry.MirrorDistinct | poc1to2.rust/src/main.rs:109-118 | an offset and its mirror are different and lie on opposite sides of the file's middle, so no byte is paired with itself |
| Geometry.Converted | poc1to2.rust/src/main.rs:109-145 | the reference definition of the PoC2 bytes: a file of the same length in which each record's first hash keeps its byte and each second-hash byte comes from the same place in the mirrored block; its properties are the lemmas below |
| Geometry.ConvertedAt | poc1to2.rust/src/main.rs:124-132 | at block `b`, offset `j` of the converted file: a first-hash byte keeps its value; a second-hash byte takes the byte at offset `j` of block `4095 - b` |
| Geometry.ConvertedInvolution | poc1to2.rust/src/main.rs:109-145 | converting twice gives back the original bytes exactly |
| Geometry.ScoopRanges | poc1to2.rust/src/main.rs:109-118 | for every pair `s < 2048`, these ranges lie in the file, in this order, without overlap: the forward range `[s*B, (s+1)*B)` and the mirrored range `[size-(s+1)*B, size-s*B)`. The mirrored range is block `4095 - s` |
| Geometry.RecordOffset | poc1to2.rust/src/main.rs:124-131 | offset `64k + t` of a block belongs to nonce `k`'s record; it is in the second hash exactly when `t >= 32` |
| Geometry.ConvertedSwapsHashes | poc1to2.rust/src/main.rs:124-132 | for every pair `s` and nonce `k`, the second-hash bytes at `s*B + 64k + 32 + t` and `size-(s+1)*B + 64k + 32 + t` trade values |
| Geometry.ConvertedKeepsFirstHashes | poc1to2.rust/src/main.rs:124-132 | for every pair `s` and nonce `k`, the first-hash bytes at `s*B + 64k + t` and `size-(s+1)*B + 64k + t` keep their values |
| Geometry.RangesPartitionFile | poc1to2.rust/src/main.rs:109-145 | every offset of the file is in exactly one of the 4096 ranges the loop reads and writes: the one `CoveringPair` names |
| Convert.PairStepForward | poc1to2.rust/src/main.rs:110-144 | inside the forward block of its pair, an iteration writes the converted original, provided both blocks still held the original when read |
| Convert.PairStepMirrored | poc1to2.rust/src/main.rs:118-138 | inside the mirrored block of its pair, likewise |
| Convert.PairStepAt | poc1to2.rust/src/main.rs:110-144 | an iteration changes only its two ranges. What it writes there is the converted original, provided the ranges still held the original when read |
| Convert.PairStepAdvances | poc1to2.rust/src/main.rs:109-145 | each iteration extends the converted part of the destination by its pair. The remaining middle of the source, and in place of the destination, still holds the original bytes |
| Convert.DoneAll | poc1to2.rust/src/main.rs:109-145 | once all 2048 pairs are done, the destination is the converted file |
| Convert.CopyBytes | poc1to2.rust/src/main.rs:127-130 | `copy_from_slice`: the destination becomes the old destination with the source slice spliced in at the offset |
| Convert.SwapSecondHalves | poc1to2.rust/src/main.rs:124-132 | the inner loop over the nonces exchanges the 32-byte second hash of every record between the two buffers and leaves the first hashes as they were |
| Convert.ReadBlocks | poc1to2.rust/src/main.rs:110-122 | the two seek-and-reads of an iteration: `buffer1` becomes the forward block and `buffer2` the mirrored block |
| Convert.WriteBlocks | poc1to2.rust/src/main.rs:134-144 | the two seek-and-writes of an iteration: `buffer2` is written at the mirrored offset first, then `buffer1` at the forward offset, and nothing else changes |
| Convert.ConvertPair | poc1to2.rust/src/main.rs:110-144 | one iteration of the outer loop. It reads both blocks, swaps, then writes the mirrored block first and the forward block second. The destination becomes `PairStep` of the old source and destination |
| Convert.ConvertInto | poc1to2.rust/src/main.rs:109-145 | after the loop the destination holds `Converted` of the original source, whether the destination is the source itself or a separate array. A separate source is left unchanged. Counting two blocks read and two written per iteration, exactly the file's length is read and exactly the file's length is written |
| Convert.ConvertPlot | poc1to2.rust/src/main.rs:91-151 | in place: the plot's bytes become the converted bytes and the target is the rename target. With an out directory the target is the PoC2 name in that directory, and the result is a success exactly when preallocation succeeds. When that target is another path, the plot is unchanged and a fresh array of the plot's size gets the converted bytes. When the target is the plot's own path, `File::create` truncates the plot: it ends up all zeros if preallocation succeeds and empty if it fails. A negative nonce count fails before anything is written |
| Convert.ConvertedZeros | poc1to2.rust/src/main.rs:100-103 | converting a file of zero bytes, which is what a truncated and preallocated plot holds, gives zero bytes |
| Convert.InPlaceMatchesCopy | poc1to2.rust/src/main.rs:97-107 | in-place and copy conversion produce the same bytes, and both are `Converted` |
| Convert.ConvertTwice | poc1to2.rust/src/main.rs:109-145 | converting a plot twice in place restores its bytes |
| Decimal.NatToString | poc1to2.rust/src/main.rs:154 | `to_string` of an unsigned value is canonical (digits only, no leading zero) and denotes the value |
| Decimal.IntToString | poc1to2.rust/src/main.rs:154 | `to_string` of a signed value: for a non-negative value, the canonical numeral denoting it. A negative value gets a `-` followed by the canonical numeral of its magnitude |
| Decimal.CanonicalUnique | poc1to2.rust/src/main.rs:154 | two canonical numerals with the same value are the same string |
| Decimal.RenderValue | poc1to2.rust/src/main.rs:154 | rendering a canonical numeral's value gives the numeral |
| Decimal.ParseU64 | poc1to2.rust/src/main.rs:31-39 | `parse::<u64>`: an optional `+`, then one or more ASCII digits of value at most `u64::MAX`; anything else fails. Its contract states that an accepted field is non-empty, has no `-` and is all digits after its first character |
| Decimal.ParseI64 | poc1to2.rust/src/main.rs:41-49 | `parse::<i64>`: an optional `+` or `-`, then one or more ASCII digits whose signed value lies in the `i64` range; anything else fails. Its contract states that an accepted field is non-empty and all digits after its first character, and that a negative result comes from a leading `-` |
| Decimal.ParseU64Canonical | poc1to2.rust/src/main.rs:31-39 | a canonical field parsed as `u64` renders back to itself |
| Decimal.ParseI64Canonical | poc1to2.rust/src/main.rs:41-49 | a canonical field parsed as `i64` renders back to itself |
| Decimal.ParseU64Rendered | poc1to2.rust/src/main.rs:31-39 | parsing the rendering of any `u64` gives that value back |
| Decimal.ParseI64Rendered | poc1to2.rust/src/main.rs:41-49 | parsing the rendering of any `i64`, negative ones included, gives that value back |
| Decimal.ParseWidthsAgree | poc1to2.rust/src/main.rs:31-49 | the `u64` and `i64` parsers agree on the fields both can hold: an unsigned field of value at most `i64::MAX` parses to the same number either way, and so does an `i64` field without a `-` |
| Decimal.ParseU64RejectsNonDigit | poc1to2.rust/src/main.rs:31-39 | any non-digit other than a leading `+` makes a `u64` field fail, a `-` sign included |
| Decimal.ParseRejectsEmpty | poc1to2.rust/src/main.rs:31-49 | an empty field and a lone sign fail to parse as either type |
| Decimal.LeadingZero | poc1to2.rust/src/main.rs:31-49 | a leading zero does not change a numeral's value |
| Fields.Split | poc1to2.rust/src/main.rs:26 | `split("_")` gives at least one field and no field contains `_` |
| Fields.JoinSplit | poc1to2.rust/src/main.rs:26 | joining the fields with `_` gives back the string |
| Fields.SplitNoSep | poc1to2.rust/src/main.rs:26 | a string without `_` is one field |
| Fields.SplitAppend | poc1to2.rust/src/main.rs:26 | the fields of `a_b` are the fields of `a` followed by those of `b` |
| Fields.SplitFour | poc1to2.rust/src/main.rs:26 | four fields without `_`, joined by `_`, split back into those four |
| Fields.SplitJoin | poc1to2.rust/src/main.rs:26 | fields without `_`, joined and split, come back unchanged |
| Fields.SplitCount | poc1to2.rust/src/main.rs:26-27 | there is one more field than there are separators |
| PlotName.AsU64 | poc1to2.rust/src/main.rs:67 | `as u64` keeps the value modulo 2^64. It is the identity on non-negative values and maps negative ones above `i64::MAX` |
| PlotName.DecodeName | poc1to2.rust/src/main.rs:26-49 | malformed exactly when there are fewer than four fields. Otherwise successful exactly when all four fields parse, and then holding their values. Every failure is a name error |
| PlotName.CheckFile | poc1to2.rust/src/main.rs:51-79 | accepted exactly when: the path exists and is a file; nonces = stagger; the product fits in `i64`; the length matches through the cast; and a given out directory is a directory. Every failure is a file-level error |
| PlotName.NewPlot | poc1to2.rust/src/main.rs:25-89 | an accepted plot has at least four fields, parsed into its `id`, `offset` and `nonces`. Its stagger equals its nonces, its path exists and is a file, and its size is the file's length, equal to `nonces * 262144` through the cast. It keeps the given path and out directory. Conversely, the plot is accepted exactly when the four fields parse, the path exists and is a file, the stagger equals the nonces, the size fits in `i64` and matches the length through the cast, and a given out directory is a directory |
| PlotName.WrongFormatIff | poc1to2.rust/src/main.rs:26-29 | the name is rejected as malformed exactly when it has fewer than four fields, that is fewer than three `_` |
| PlotName.SameFieldsSameOutcome | poc1to2.rust/src/main.rs:26-89 | two paths with the same first four fields decode the same way, up to the stored path |
| PlotName.ExtraFieldsIgnored | poc1to2.rust/src/main.rs:26-29 | appending `_` and anything to a four-field name changes only the stored path |
| PlotName.FieldErrors | poc1to2.rust/src/main.rs:31-49 | the first field that does not parse gives its own error (`BadId`, `BadOffset`, `BadNonces`, `BadStagger`), whatever the file system says |
| PlotName.FileErrors | poc1to2.rust/src/main.rs:51-79 | once the fields parse, a missing path gives `PathMissing`, then a non-file `NotAFile`, then an overflowing size `SizeOverflow`, and a plot of the right length with an out directory that is not a directory `OutNotDir` |
| PlotName.NotOptimizedBeforeSize | poc1to2.rust/src/main.rs:59-63 | for an existing file with nonces ≠ stagger, the error is `NotOptimized`, whatever the length and the out directory |
| PlotName.SizeDecides | poc1to2.rust/src/main.rs:65-79 | take an optimized plot whose nonce count is non-negative and whose product fits. It is accepted exactly when its length is `nonces * 262144` and a given out directory is a directory. Any other length gives `SizeMismatch` with the expected and actual sizes |
| PlotName.AcceptedSize | poc1to2.rust/src/main.rs:65-69 | an accepted plot with non-negative nonces has size `nonces * 262144`. Its nonces are non-negative exactly when its size is at most `i64::MAX` |
| PlotName.DirectoryPrefixRejected | poc1to2.rust/src/main.rs:26-34 | a `/` in the first field, as a directory prefix puts there, gives `BadId` |
| PlotName.NonNumericIdRejected | poc1to2.rust/src/main.rs:31-34 | `abc_0_10_10` is rejected with `BadId` whatever the file system says |
| PlotName.StaggeredPlotFields | poc1to2.rust/src/main.rs:26-49 | `1_0_10_5` splits into `1`, `0`, `10`, `5` and each field parses |
| PlotName.StaggeredPlotRejected | poc1to2.rust/src/main.rs:59-63 | `1_0_10_5`, once it exists and is a file, is rejected with `NotOptimized` |
| PlotName.RenderedNameDecodes | poc1to2.rust/src/main.rs:25-89 | a name rendered from an id, an offset and equal nonces and stagger decodes to exactly that plot, when the file system agrees |
| PlotName.Poc2Name | poc1to2.rust/src/main.rs:153-155 | the PoC2 name splits into exactly three fields: the decimal id, the offset and the nonce count |
| PlotName.Poc2NameFields | poc1to2.rust/src/main.rs:153-155 | the three fields of the PoC2 name parse back to the plot's id, offset and nonces |
| PlotName.Poc2NameRejected | poc1to2.rust/src/main.rs:26-29 | a PoC2 name has three fields, so `Plot::new` rejects it as malformed |
| PlotName.RenderCanonicalFields | poc1to2.rust/src/main.rs:153-155 | a plot whose fields were written canonically has a PoC2 name that is those three fields joined |
| PlotName.Poc2NameKeepsFields | poc1to2.rust/src/main.rs:153-155 | for an accepted plot written without signs or leading zeros, the PoC2 name is the first three fields of its PoC1 name |
| PlotName.Parent | poc1to2.rust/src/main.rs:148 | the parent is a prefix of the path, and empty for a bare file name |
| PlotName.JoinPath | poc1to2.rust/src/main.rs:98-99 | the joined path ends with the name, and is the name itself under an empty directory |
| PlotName.Poc2NameNoSlash | poc1to2.rust/src/main.rs:153-155 | a PoC2 name never contains `/`, so pushing it onto a directory adds exactly one component |
| PlotName.ParentAppend | poc1to2.rust/src/main.rs:148 | appending characters other than `/` to a path leaves its parent unchanged |
| PlotName.ParentJoinPath | poc1to2.rust/src/main.rs:98-99 | the parent of a name without `/` pushed onto a directory is that directory, when the directory has no trailing `/` other than the root |
| PlotName.RenameKeepsDirectory | poc1to2.rust/src/main.rs:147-150 | the in-place conversion renames the plot within its own directory: the rename target's parent is the plot's parent |
| PlotName.CopyInOutDirectory | poc1to2.rust/src/main.rs:97-100 | the copy is written directly inside the out directory: the copy target's parent is that directory |
| PlotName.NestedPlotAccepted | poc1to2.rust/src/main.rs:25-89 | a plot stored under its PoC2 name in a directory named `<id>_<offset>_<nonces>_<nonces>_`, such as `1_0_10_10_/1_0_10`, is accepted with the fields of the directory's name |
| PlotName.CopyTargetCanBePlot | poc1to2.rust/src/main.rs:97-100 | converting such a plot into its own directory targets the plot's own path, the case in which `File::create` truncates the plot |
| PlotName.RenameTarget | poc1to2.rust/src/main.rs:148 | the in-place target is the PoC2 name joined onto the plot's parent: it ends with the PoC2 name, and is that name for a bare file name |
| PlotName.CopyTarget | poc1to2.rust/src/main.rs:98-99 | the copy target is the PoC2 name pushed onto the out directory: it ends with the PoC2 name, and is that name under an empty directory |
| PlotName.BareNameRenamed | poc1to2.rust/src/main.rs:147-150 | a plot given by a bare file name is renamed to its bare PoC2 name |
| PlotName.TestPlot | poc1to2.rust/src/main.rs:186-197 | the test plot `11253871103436815155_0_10_10` of 2621440 bytes decodes to id 11253871103436815155, offset 0 and 10 nonces, with its own path. Its PoC2 name is `11253871103436815155_0_10` |
| PlotName.TestPlotRenamed | poc1to2.rust/src/main.rs:199-201 | in the test, the in-place conversion renames the plot to `11253871103436815155_0_10` |

## Left out

- `main` and its command-line parsing (poc1to2.rust/src/main.rs:158-177): the model starts from the two strings `main` passes to `Plot::new`.
- File-system queries: `Path::exists`, `is_file`, `is_dir` and `fs::metadata(..).len()` are the inputs in `FsFacts`. A failing `metadata` call is not modelled.
- File I/O: opening, creating, seeking, reading and writing are not modelled as I/O. The plot, and in copy mode its copy, are byte arrays; seek-then-read and seek-then-write are slice copies. Failures of `open`/`create` (the `unwrap`s) are not modelled.
- Short reads and writes (poc1to2.rust/src/main.rs:114-116, 120-122, 136-138, 142-144): an array slice copy always moves the whole block, so the four "read/wrote N bytes instead of M" panics cannot arise and have no error value.
- `set_len` preallocation is the boolean `preallocOk` of `Convert.ConvertPlot`. When preallocation fails and the target is another path, the empty file that `File::create` leaves there is not modelled.
- Convert.ConvertPlot: the copy target is recognised as the plot itself only when the two path strings are equal. Other spellings of the same file (`./`, `..`, doubled `/`, symbolic or hard links) are treated as a different file. When the plot is truncated and preallocation fails, only its new length 0 is returned as `plotLength`; the array keeps its length, because Dafny arrays cannot shrink.
- `fs::rename` is not performed. `Convert.ConvertPlot` returns the target path, and in place the converted bytes stay in the same array.
- PlotName.Parent: `Path::parent` is modelled as "everything before the last `/`". Trailing slashes, `.` components and the `None` case of the root path are not normalised as Rust does.
- PlotName.JoinPath: models `PathBuf::push` only for a relative name, which is always the case here because the PoC2 name is digits, `-` and `_`, never `/` (`Poc2NameNoSlash`).
- PlotName.NewPlot: in a release build, `nonces * NONCE_SIZE` wraps modulo 2^64 instead of panicking. The model takes the debug-build panic, `SizeOverflow`.
- Convert.ConvertPlot: a plot with a negative nonce count is refused with `BufferTooLarge`. This stands for `vec![0; block_size as usize]` failing on a huge size; Rust's capacity-overflow panic itself is not modelled. Such a plot needs a file of at least 2^63 bytes to be accepted at all.
- PlotName.TestPlot: the test's path literal is written as `NatToString(TEST_ID) + "_0_10_10"`, the decimal rendering of the id followed by the other fields, rather than as one 28-character string literal. Deciding a literal that long character by character costs the solver too much.
- The md5 check of the converted fixture (poc1to2.rust/src/main.rs:203-204): the fixture file and MD5 are not part of this model. The content of the converted plot is instead characterised exactly by `Geometry.Converted`.
- Panic message texts, including lines 137 and 143, which print `numread` where `numwrite` is meant.
- Unicode: field parsing looks at ASCII digits and signs only, as Rust's parser does. Strings are sequences of characters, with no byte encoding.
