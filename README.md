# seqtoid-workflow-utils: a verified model of the file, path and comparison utilities

This project models, in Dafny, the deterministic core of the
seqtoid-workflow-utils helpers that surround its sequencing pipelines:

- the FASTA/FASTQ extension and read-tag tables, and the extension remover
  that strips `.ext` or `.ext.gz` from a file name (`Defs`, `FileUtils`);
- the FASTQ reader that turns a line stream into `(header, sequence,
  quality)` records four lines at a time, modelled as a method over a
  line-reader object with a read position (`Fastaq`);
- the classifier that splits an argument into an S3 client, bucket and key
  prefix, or resolves it as a local path (`IoUtils`);
- the mapping of a logging level to a Snakemake verbosity flag
  (`LoggingUtils`);
- the partition arithmetic of the nucleotide-index splitter, which cuts a
  FASTA file of N sequences into k chunk files by line ranges
  (`NtIndexSplit`);
- the validation script that compares a Rust pipeline's variants,
  consensus sequence and statistics with a WDL pipeline's (`CompareValidate`).

`PyStr` holds the Python string built-ins these use: `strip`, `split`/`join`
on one character, `startswith`/`endswith`, `upper`/`islower` on ASCII
letters, `int()` and `str()` on integers, and zero-padded formatting.

Everything outside the program is a parameter. This covers the S3 service
(`bucketExists`), `os.path.abspath` (`abspath`, where `None` stands for an
`OSError`), the file contents (a sequence of lines), the sequence count of a
FASTA file, and what the VCF, FASTA and JSON parsers deliver. Logging and
printing are not modelled: the FASTQ readers return their log and the
comparisons return the sets they would print; other messages are dropped.

Where the code and its own tests disagree, the model follows the code.
`tests/test_io.py:26-27` expects a client back for a bucket that does not
exist. The code returns `(None, None, None)` whenever `head_bucket` fails
(`IoUtils.MissingBucketRejected`, `IoUtils.TestBadBucketPath`).

## Model

| member | source | states |
|---|---|---|
| Defs.ExtSetsDisjoint | src/defs.py:28-29 | no extension is both a FASTA and a FASTQ extension |
| Defs.NoExtEndsWithOther | src/defs.py:28-29 | no FASTA extension is a suffix of a FASTQ extension, nor the reverse |
| Defs.ClassificationUnambiguous | src/defs.py:28-29 | no file name ends with both a FASTA and a FASTQ extension, so classifying by `endswith` is unambiguous |
| Defs.ExtSetsHoldPlainAndGzip | src/defs.py:28-29 | each set is exactly its two plain extensions and their `.gz` forms |
| Defs.CanonicalFormsRecognised | src/defs.py:22-31 | `.fasta`, `.fastq`, `R1` and `R2` belong to their sets, and the R1 and R2 tag sets are disjoint |
| FileUtils.SplitExt | src/file_utils.py:26-30 | `posixpath.splitext`: the root and the extension concatenate to the input, and the extension is empty or a dot followed by non-dot, non-slash characters |
| FileUtils.SplitExtFindsExtension | src/file_utils.py:30 | `splitext` returns a non-empty extension exactly when the last path component has a dot after some non-dot character |
| FileUtils.RemoverPlainName | src/file_utils.py:25-31 | a name without a gzip suffix loses exactly one extension if it has one, and is returned unchanged otherwise |
| FileUtils.RemoverGzipName | src/file_utils.py:25-31 | a gzip-suffixed name is the result followed by the two extensions the two `splitext` calls remove |
| FileUtils.ExtensionRemoverGzip | src/file_utils.py:18-31 | the result is a prefix of the name; a name without a gzip suffix loses at most one extension, a gzip-suffixed one at most two |
| FileUtils.RemoverExampleGzipped | src/file_utils.py:25-30 | `s.fastq.gz` becomes `s` |
| FileUtils.RemoverExamplePlain | src/file_utils.py:27-30 | `s.fq` becomes `s` |
| FileUtils.RemoverExampleDotFile | src/file_utils.py:30 | a leading dot does not start an extension: `.bashrc` is unchanged |
| FileUtils.RemoverExampleDottedDirectory | src/file_utils.py:30 | a dot in a directory name is not an extension separator: `run.v2/sample` is unchanged |
| Fastaq.LineReader.ReadLine | src/fastaq.py:33-46 | `readline()` returns the next line and advances, or returns `""` at end of file and stays |
| Fastaq.ReadFour | src/fastaq.py:33-46 | the four reads of one turn return the four lines at the position (`""` past the end) and move past them |
| Fastaq.FastqIterate | src/fastaq.py:25-51 | run to exhaustion, the reader yields exactly the stripped records of `FastqRecords` and logs exactly `FastqLog`, leaving the handle at end of file |
| Fastaq.RecordCount | src/fastaq.py:32-51 | for n lines the reader yields n/4 records when n mod 4 is 0 or 1, and ⌈n/4⌉ otherwise |
| Fastaq.RecordAt | src/fastaq.py:33-51 | record k is the stripped header, sequence and quality lines p+4k, p+4k+1 and p+4k+3, in input order |
| Fastaq.LoneHeader | src/fastaq.py:37-40 | a header followed by end of file yields no record and logs one missing-sequence error |
| Fastaq.TruncatedRecordYielded | src/fastaq.py:46-51 | a final record cut short after its sequence or separator line is still yielded, with an empty quality |
| Fastaq.EverySeparatorFlagged | src/fastaq.py:42-44 | when every line keeps its newline, the separator check logs one error per record, even for a correct `+` line |
| Fastaq.NotBarePlus | src/fastaq.py:43 | a line read with its newline is never equal to `+` |
| Fastaq.ThreeRecords | tests/test_fastaq.py:13-19 | a stream yields three records exactly when it has 10 to 13 lines |
| Fastaq.FastqIterateChecked | src/fastaq.py:25-51 | the reader as intended (separator compared after stripping, quality-line test on the quality line) yields exactly `CheckedRecords` and logs exactly `CheckedLog`, leaving the handle at end of file |
| Fastaq.CheckedRecordsComplete | src/fastaq.py:46-51 | the intended reader yields one record per complete group of four lines, in order, each with the stripped lines p+4k, p+4k+1 and p+4k+3 |
| Fastaq.CheckedAgreesWhenComplete | src/fastaq.py:25-51 | on input made of complete groups of four lines, the intended reader and the reader as written yield the same records |
| Fastaq.WellFormedSilent | src/fastaq.py:42-44 | the intended reader logs nothing on complete records whose separator line is `+` once stripped |
| Fastaq.TruncationReported | src/fastaq.py:46-49 | with the intended reader, a last record cut short after its sequence or separator line ends the log with a missing-quality error for its header |
| Fastaq.TruncatedRecordExample | src/fastaq.py:46-51 | as written, `["@r\n", "ACGT\n"]` yields `("@r", "ACGT", "")` with only a separator error; the intended reader yields nothing and reports the missing quality line |
| Fastaq.SeparatorExample | src/fastaq.py:42-44 | as written, a correct record with `"+\n"` as its third line logs a bad separator; the intended reader logs nothing |
| IoUtils.FromBucket | src/io_utils.py:62-80 | a client and the bucket come back exactly for a valid, existing bucket, otherwise all `None`; the prefix is the joined rest with its outer slashes removed, `None` exactly when the rest is slashes only, and otherwise non-empty without an outer slash |
| IoUtils.S3Check | src/io_utils.py:34-88 | anything but all `None` needs a non-blank string, which is classified after backslashes become slashes; a client comes with a valid, existing bucket, and no client with no bucket |
| IoUtils.Classify | src/io_utils.py:50-88 | a string off the S3 branch gives no client, no bucket and `abspath`'s answer; one on it without `s3://` gives all `None`; a client comes only with `s3://`, with column 2 as the bucket, valid and existing |
| IoUtils.BlankIffAllWhitespace | src/io_utils.py:44 | `strip()` leaves nothing exactly when every character is whitespace |
| IoUtils.S3CheckResults | src/io_utils.py:35-88 | a client implies a valid, existing bucket and a clean prefix; no client implies no bucket; a local path is returned exactly when the input is a non-blank string not taking the S3 branch and `abspath` succeeds, and it is `abspath`'s answer |
| IoUtils.InvalidInputRejected | src/io_utils.py:44-46 | a non-string, empty or all-whitespace argument gives `(None, None, None)` |
| IoUtils.NormaliseIdempotent | src/io_utils.py:48 | replacing backslashes is idempotent and leaves no backslash |
| IoUtils.BackslashesAreSlashes | src/io_utils.py:44-51 | writing backslashes as slashes beforehand never changes the result |
| IoUtils.NormalisePreservesBlank | src/io_utils.py:44-48 | replacing backslashes neither makes nor unmakes a blank argument |
| IoUtils.MissingDoubleSlashRejected | src/io_utils.py:56-60 | a string with the `s3:` tag and a bucket column but without `s3://` gives all `None` |
| IoUtils.BucketNameExamples | src/io_utils.py:62-65 | `123`, `myBucket` and `ab` are rejected as bucket names; `cypherid-public-references` is accepted |
| IoUtils.S3PathColumns | src/io_utils.py:51 | `s3://bucket/rest` splits on `/` into `s3:`, an empty column, the bucket, then the columns of `rest` |
| IoUtils.BareBucketColumns | src/io_utils.py:51 | `s3://bucket` splits into `s3:`, an empty column and the bucket |
| IoUtils.CanonicalS3Path | src/io_utils.py:51-62 | `s3://bucket/rest` reaches the bucket check with column 2 as the bucket and the columns of `rest` as the prefix columns |
| IoUtils.BareBucketPath | src/io_utils.py:51-62 | `s3://bucket` reaches the bucket check with no prefix columns |
| IoUtils.S3PathRoundTrip | src/io_utils.py:51-80 | `s3://bucket/prefix` for an existing, valid bucket and a prefix without outer slashes comes back as client, bucket and that prefix |
| IoUtils.OuterSlashesStripped | src/io_utils.py:74-80 | `s3://bucket//key/` gives the client, the bucket and `key` |
| IoUtils.SlashOnlyPrefix | src/io_utils.py:74-78 | a key of slashes only, as in `s3://bucket//`, gives the client and bucket with `None` for the prefix |
| IoUtils.EmptyPrefix | src/io_utils.py:74-78 | `s3://bucket` and `s3://bucket/` give the client and bucket with `None` for the prefix |
| IoUtils.MissingBucketRejected | src/io_utils.py:67-72 | a bucket the service does not acknowledge gives all `None` |
| IoUtils.ShortTagIsLocal | src/io_utils.py:82-88 | `s3:x` has too few columns for the S3 branch and is resolved as a local path |
| IoUtils.TestS3Path | tests/test_io.py:12-21 | when the public-references bucket exists, the test path gives a client, that bucket and the key `hi.txt` |
| IoUtils.TestBadBucketPath | tests/test_io.py:14-27 | the bad-bucket test path names a valid bucket, and gives all `None` when the service does not acknowledge it |
| LoggingUtils.SnakemakeLogLevel | src/logging_utils.py:13-29 | the function is total and always returns one of the four flags |
| LoggingUtils.FlagBands | src/logging_utils.py:20-29 | `--debug` exactly for levels up to 10, `--verbose` for (10, 20], the empty flag for (20, 30], `--quiet` above 30 |
| LoggingUtils.VerbosityNeverIncreases | src/logging_utils.py:20-29 | raising the level never asks for more output |
| LoggingUtils.VerbosityCountsThresholds | src/logging_utils.py:20-29 | the verbosity of the flag is the number of thresholds (10, 20, 30) the level does not exceed |
| NtIndexSplit.SplitFasta | scripts/nt_index_split.py:15-47 | the loop plans exactly `num_chunks` chunks in index order, chunk i being `Plan(i)`, and returns their file names in that order |
| NtIndexSplit.SeqsBeforeClosedForm | scripts/nt_index_split.py:22-44 | the sequences before chunk i are (i-1)·⌊N/k⌋ plus one for each earlier chunk among the first N mod k |
| NtIndexSplit.SizesSumToTotal | scripts/nt_index_split.py:26-44 | the chunk sizes add up to N: after the loop `current_seq` is N + 1 |
| NtIndexSplit.SizesBalanced | scripts/nt_index_split.py:22-28 | every chunk holds ⌊N/k⌋ or ⌊N/k⌋+1 sequences, the extra one exactly for the first N mod k chunks |
| NtIndexSplit.ChunkLines | scripts/nt_index_split.py:32-33 | each range holds two lines per sequence, an empty chunk ending one line before it starts |
| NtIndexSplit.RangesAbut | scripts/nt_index_split.py:32-44 | each chunk starts on the line after the previous chunk's last line |
| NtIndexSplit.SeqsBeforeMonotone | scripts/nt_index_split.py:44 | `current_seq` never decreases along the chunks |
| NtIndexSplit.RangesDisjoint | scripts/nt_index_split.py:32-44 | an earlier chunk's range ends before any later chunk's range starts |
| NtIndexSplit.RangesCover | scripts/nt_index_split.py:32-44 | the first range starts at line 1, the last ends at line 2N, and every line in between lies in some range |
| NtIndexSplit.ChunkNamesDistinct | scripts/nt_index_split.py:29 | different indices give different chunk names and different chunk paths |
| NtIndexSplit.ChunkNameExample | scripts/nt_index_split.py:29 | chunks 1 and 20 are named `nt_chunk_001.fasta` and `nt_chunk_020.fasta` |
| PyStr.StripProperties | src/fastaq.py:51 | `strip` removes a run of stripped characters from each end and no more, and leaves nothing exactly when every character is stripped |
| PyStr.SplitProperties | src/io_utils.py:51 | `split` gives at least one part, no part holds the separator, and joining the parts gives the text back |
| PyStr.SplitJoin | src/io_utils.py:74 | `split` inverts `join` on non-empty lists of parts without the separator |
| PyStr.ParseInt | scripts/consensus-genome-compare-validate.py:167 | `int()` on a stripped line succeeds exactly on an optional sign followed by ASCII digits, with single underscores allowed between digits |
| PyStr.ParseIntToString | scripts/consensus-genome-compare-validate.py:167 | `int(str(i)) == i` |
| PyStr.ZeroPaddedValue | scripts/nt_index_split.py:29 | the zero-padded index reads back as the index |
| PyStr.UpperIdempotent | scripts/consensus-genome-compare-validate.py:96 | uppercasing twice is uppercasing once |
| CompareValidate.SortStringsProperties | scripts/consensus-genome-compare-validate.py:31 | `sorted(alts)` is in Python string order and a permutation of `alts` |
| CompareValidate.SortCanonical | scripts/consensus-genome-compare-validate.py:31 | two allele lists sort alike exactly when they hold the same alleles |
| CompareValidate.LoadVariants | scripts/consensus-genome-compare-validate.py:24-36 | the loop over the records returns what `Variants` specifies: the map, or the first error |
| CompareValidate.VariantsLoaded | scripts/consensus-genome-compare-validate.py:24-36 | loading succeeds exactly when every record has alternate alleles and no two records share `(contig, pos)`; the map then holds exactly the records' positions, each mapped to its reference and sorted alternate alleles |
| CompareValidate.DuplicateRejected | scripts/consensus-genome-compare-validate.py:33-34 | two records at one position make loading fail |
| CompareValidate.AltOrderIrrelevant | scripts/consensus-genome-compare-validate.py:31 | two records with the same reference load to the same value exactly when their alternate alleles agree up to order |
| CompareValidate.CompareVariants | scripts/consensus-genome-compare-validate.py:39-50 | common, Rust-only and WDL-only positions are pairwise disjoint and make up each side's keys; a position is a mismatch exactly when it is common and the two values differ |
| CompareValidate.NothingReportedIffEqual | scripts/consensus-genome-compare-validate.py:39-50 | no one-sided position and no mismatch exactly when the two maps are equal |
| CompareValidate.CompareVariantsSymmetric | scripts/consensus-genome-compare-validate.py:40-45 | swapping the maps swaps the one-sided sets and keeps the common positions and the mismatches |
| CompareValidate.LoadFasta | scripts/consensus-genome-compare-validate.py:90-96 | a file loads exactly when it holds one record; no record and several records are the two errors; the result is the record without lower-case letters, equal to it up to case |
| CompareValidate.LoadFastaIgnoresCase | scripts/consensus-genome-compare-validate.py:96 | sequences that agree up to case load alike, and an uppercased file loads as the original |
| CompareValidate.FirstMismatch | scripts/consensus-genome-compare-validate.py:114-117 | the reported position is 1 + the smallest index below both lengths where the characters differ; nothing is reported exactly when one sequence is a prefix of the other |
| CompareValidate.CompareConsensus | scripts/consensus-genome-compare-validate.py:110-119 | identical exactly when the sequences are equal; otherwise the first mismatch (position and both characters) is reported exactly when neither is a prefix of the other, the lengths exactly when they differ, and always at least one of the two |
| CompareValidate.LoadStats | scripts/consensus-genome-compare-validate.py:144-157 | with `is_wdl` the three quantile renamings are applied in the mapping's order, and without it the dictionary is returned unchanged |
| CompareValidate.RenameAllEffect | scripts/consensus-genome-compare-validate.py:154-156 | for renamings with distinct names, each old name is gone, each new name holds the old name's value if it was present and its own value otherwise, and every other key is untouched |
| CompareValidate.QuantilesRenamed | scripts/consensus-genome-compare-validate.py:147-156 | `depth_q.25`, `depth_q.5` and `depth_q.75` move to `depth_q25`, `depth_q50` and `depth_q75` when present, overwriting the target; all other keys are kept |
| CompareValidate.LoadDepthFile | scripts/consensus-genome-compare-validate.py:160-171 | the loop over the lines returns what `Depths` specifies: the parsed depths in order, or the error of the first line `int()` refuses |
| CompareValidate.DepthsOutcome | scripts/consensus-genome-compare-validate.py:160-171 | reading succeeds exactly when every non-blank stripped line is an integer; otherwise the error names the first stripped line that is not |
| CompareValidate.BlankLineIgnored | scripts/consensus-genome-compare-validate.py:164-165 | inserting a blank line anywhere does not change what is read |
| CompareValidate.DepthsRoundTrip | scripts/consensus-genome-compare-validate.py:160-171 | depths written one per line, with newlines, read back as the same depths in order |
| CompareValidate.DoubleAlignmentFields | scripts/consensus-genome-compare-validate.py:216-219 | the loop returns what `DoubleFields` specifies for the three alignment fields |
| CompareValidate.DoubleFieldsEffect | scripts/consensus-genome-compare-validate.py:217-219 | with distinct fields, doubling fails exactly when a present, non-null field is an object, naming the first; otherwise each present, non-null field is replaced by its double and every other entry is kept |
| CompareValidate.AlignmentFieldsDoubled | scripts/consensus-genome-compare-validate.py:216-219 | `mapped_reads`, `ercc_mapped_reads` and `ercc_mapped_paired` are doubled when present and not null (a count n becomes 2n); nothing else changes |
| CompareValidate.AlleleCounts | scripts/consensus-genome-compare-validate.py:277-281 | a missing table is empty, an object is its entries, and any other value is the `AttributeError` that `.keys()` raises |
| CompareValidate.CompareAlleleCounts | scripts/consensus-genome-compare-validate.py:277-286 | the rust table's error comes first, then the wdl table's; with both tables read, the reported keys are exactly those whose counts differ, once each, with both counts |
| CompareValidate.AlleleMismatches | scripts/consensus-genome-compare-validate.py:280-286 | the reported keys are exactly the keys of either side whose counts differ, a missing count being 0; each is reported once, with both counts |
| CompareValidate.NoAlleleMismatchIffAgree | scripts/consensus-genome-compare-validate.py:281-286 | nothing is reported exactly when both sides agree on every key, a missing count being 0; a count of 0 against a missing entry is not a mismatch |

## Left out

- I/O: opening files, `readline` on real handles, `gzip`, boto3 sessions and `head_bucket`, `os.path.abspath`, `os.listdir` and the `find_*` lookups. Each is a parameter, or the data it delivers.
- Logging and printing: the FASTQ readers return their log entries and the comparisons return the sets they print. Every other message is dropped, such as what `s3_check` logs (src/io_utils.py:45-87) and the totals `split_fasta` prints (scripts/nt_index_split.py:20, 46). The order of the printed lists is not modelled.
- `count_sequences`, the `awk` extraction and the chunk data-loss check in `split_fasta` (subprocesses). The sequence count is an input, and each chunk's line range stands for its extraction, so the check's `RuntimeError` is not modelled.
- NtIndexSplit.SplitFasta: requires at least one chunk. With `num_chunks = 0` the source raises `ZeroDivisionError`, and with a negative count it returns no files. The model excludes both.
- The `AttributeError` branch around `split` in `s3_check`: a `str` always has `split`, so it cannot be reached once the argument is known to be a string.
- Unicode beyond ASCII in `upper` and `islower`: only ASCII letters are cased here. `strip` uses Python's full whitespace set.
- JSON floating-point values, `compute_depth_stats`, and the relative-difference comparison of `compare_stats`. Floating point is not modelled.
- The sorted printing of mismatches and the iteration order of sets and dictionaries. Mismatches are returned as sets, or as a sequence without a promised order.
- CompareValidate.PyEq follows Python's `==` for `True == 1` and `False == 0` at every level of lists and objects. It does not cover floats.
- The contents of the sample file `no_host_1.fq.gz` (tests/test_fastaq.py:13-19): the file is not available. `Fastaq.ThreeRecords` states which line counts give three records.
- `setup_logger`, `get_logger` and the other logging-handler set-up, and everything outside the modules above.
- PyStr.ParseInt: accepts ASCII digits only, not the other Unicode decimal digits `int()` takes, and does not model the `ValueError` CPython 3.11 and later raise for more than 4300 digits.
- CompareValidate.LoadStats: the parsed file is taken to be a JSON object. Any other top-level value is not modelled. Python then raises `TypeError` or `AttributeError`, either in `load_stats` or at a later `.get`, depending on the value.
- `GZIP_EXT_SET` is imported but not defined in src/defs.py, so it is a parameter of `ExtensionRemoverGzip`.

## Findings

| source | as written | input that shows it | evidently intended | confidence | as-written member | corrected member |
|---|---|---|---|---|---|---|
| src/fastaq.py:47-49 | after reading the quality line the reader tests `seq == ''`, which cannot hold there, so a record cut short is yielded | `["@r\n", "ACGT\n"]` yields `("@r", "ACGT", "")` and logs no missing quality line | test `qual == ''`, log the missing quality line and stop | high; not executed | Fastaq.TruncatedRecordExample | Fastaq.TruncationReported |
| src/fastaq.py:43-44 | the separator line is compared with `'+'` still carrying its newline, so every record is flagged | `["@r\n", "ACGT\n", "+\n", "IIII\n"]` logs a bad-separator error | compare the stripped line with `'+'` | high; not executed | Fastaq.SeparatorExample | Fastaq.WellFormedSilent |

`Fastaq.FastqIterate` models the reader as written. `Fastaq.FastqIterateChecked`
is the reader with both corrections, and `CheckedRecords` and `CheckedLog`
specify it.
