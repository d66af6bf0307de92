# VCF genotype-only rewriter, modelled in Dafny

`adsp_gt_only.cpp` is a filter that sits in a pipeline
(`zcat vcf.gz | adsp_gt_only | gzip`) and rewrites a Variant Call Format
(VCF) file one line at a time:

- a header line (one that starts with `#`) is written out unchanged;
- a data line is read as its nine leading columns (CHROM, POS, ID, REF, ALT,
  QUAL, FILTER, INFO, FORMAT) followed by one column per sample. It is
  written back with FORMAT forced to `GT`, and each sample column cut down to
  its genotype, which is the text before the first `:`.

The file also has an INFO filter, `KeepFlag`. It keeps only the `VFLAGS_` and
`ABHet_` entries of INFO and reports whether some kept variant flag is `0`.
The call to it in `main` is commented out, so the live program passes INFO
through unchanged. The model follows the live code: `KeepFlag` is modelled and
proved on its own, and the per-line rewrite does not use it.

The model has five modules, each in its own file:

- `Text` (`text.dfy`): character search (`find`), the plain split on a
  delimiter, the token sequence that repeated `std::getline` calls produce,
  joining, and `Stream`, a class standing for `std::stringstream`. A `Stream`
  has a fixed text and a read position that only moves forward; its `Getline`
  method is `std::getline`.
- `Decimal` (`decimal.dfy`): reading POS as digits and printing it back.
- `InfoFilter` (`info_filter.dfy`): `KeepFlag`. It is a method with the
  source's loop, proved equal to the functions `FilteredInfo` and `Verdict`.
- `Vcf` (`variant.dfy`): the `Variant` record as a class whose fields the
  methods `GetBasicInfo`, `ExtractGT` and `PrintVariant` fill and read, as in
  the source.
- `LineRewriter` (`rewriter.dfy`): the per-line dispatch in `main`, with the
  specification `RewriteLine` and the lemmas about its output.

A few points about the source that the model keeps:

- `token.find('=')` returns `npos` when there is no `=`, and `npos + 1` wraps
  round to 0. The "value" of such a token is therefore the whole token (see
  `ValueOf`).
- `std::getline` never yields an empty token after the last delimiter. So the
  INFO text `"a;"` has one entry, and a data line that ends in a tab has no
  sample column after that tab (see `Tokens` and `SampleColumnsOfLine`).
- POS is printed back from its value, so leading zeros are dropped: `007` is
  read as 7 and printed as `7` (see `ParseNatToString` and
  `PositionRoundTrip`, which speak of the value, not the text).

The file also holds commented-out code that the live program does not run:
the AC/AN counting and the `all_missing` result in `ExtractGT`, the extraction
of per-sample DP and GQ, the `pass` gate and the AC/AF/AN print in
`PrintVariant`, and the `KeepFlag` call in `main`. The model follows the live
code: headers are echoed unchanged, and no statistic is computed.

## Model

| member | source | states |
|---|---|---|
| `Text.IndexOf` | adsp_gt_only.cpp:43 | the result is the position of the first occurrence, or the length when there is none (`npos`) |
| `Text.ContainsAt` | adsp_gt_only.cpp:37-38 | `Contains(s, p)` holds exactly when `p` occurs in `s` at some position, which is what `find(p) != npos` tests |
| `Text.TokensSplit` | adsp_gt_only.cpp:36 | the getline tokens of a text are its delimiter-separated pieces, except for an empty last piece |
| `Text.TokensJoin` | adsp_gt_only.cpp:70 | reading delimiter-free parts back with getline after joining them returns the parts, except for an empty last one |
| `Text.SplitJoin` | adsp_gt_only.cpp:104-117 | splitting a join of tab-free columns on tabs gives the same columns back |
| `Text.Stream.Getline` | adsp_gt_only.cpp:36 | one `std::getline`: it fails only when nothing is left; otherwise it returns the next token and moves past its delimiter |
| `Decimal.ParseNatToString` | adsp_gt_only.cpp:105 | reading back a printed position gives the same number |
| `Decimal.NatToStringParse` | adsp_gt_only.cpp:20 | a digit string without leading zeros is printed back exactly as it was read |
| `Decimal.NatToString` | adsp_gt_only.cpp:105 | a printed position is a non-empty run of digits, with no leading zero unless it is `0` |
| `InfoFilter.KeepFlag` | adsp_gt_only.cpp:32-60 | the new INFO is `FilteredInfo` of the old one, and the result is `Verdict` of the old one |
| `InfoFilter.KeptTokens` | adsp_gt_only.cpp:37-38 | every kept entry contains `VFLAGS_` or `ABHet_` |
| `InfoFilter.KeptTokensMembers` | adsp_gt_only.cpp:37-38 | an entry is kept exactly when it is an entry of the old INFO and contains `VFLAGS_` or `ABHet_` |
| `InfoFilter.KeptTokensAppend` | adsp_gt_only.cpp:36-40 | filtering distributes over concatenation, so kept entries stay in their original relative order |
| `InfoFilter.FilteredInfoTokens` | adsp_gt_only.cpp:36-57 | reading the new INFO back entry by entry gives exactly the kept entries, in order. There is no added entry and no empty entry before, between or after them; when some entry is kept, a plain split on `;` gives them back too, so there is no leading or trailing `;` |
| `InfoFilter.FilteredInfoEmpty` | adsp_gt_only.cpp:34-57 | the new INFO is empty exactly when no entry contains `VFLAGS_` or `ABHet_` |
| `InfoFilter.VerdictFromFlags` | adsp_gt_only.cpp:42-46 | the result is true exactly when some entry is a variant flag whose value after the first `=` is `0`. `ABHet_` entries play no part |
| `InfoFilter.ZeroFlagShape` | adsp_gt_only.cpp:43-44 | a variant flag counts as `0` exactly when it ends in `=0` and that `=` is its first one. A flag without `=` never counts |
| `InfoFilter.FilterIdempotent` | adsp_gt_only.cpp:36-57 | filtering the filtered INFO again changes neither the INFO nor the result |
| `Vcf.GenotypeOf` | adsp_gt_only.cpp:75-76 | the genotype is a prefix of the column with no `:`; it is followed by `:` or is the whole column |
| `Vcf.GenotypesOf` | adsp_gt_only.cpp:70-77 | one genotype per sample column, in column order, each the `GenotypeOf` of its column |
| `Vcf.Variant.constructor` | adsp_gt_only.cpp:133 | a fresh record has empty text columns and empty per-sample lists |
| `Vcf.Variant.GetBasicInfo` | adsp_gt_only.cpp:18-28 | the nine leading fields take the nine read values, and nothing else changes |
| `Vcf.Variant.ExtractGT` | adsp_gt_only.cpp:64-100 | it appends to `gt` the genotype of each tab token after the first, in order, and reads the stream to its end. It returns false and changes nothing but `gt` and the stream |
| `Vcf.Variant.PrintVariant` | adsp_gt_only.cpp:102-118 | the printed line is the record's columns joined by single tabs: eight leading values, FORMAT, then each genotype |
| `LineRewriter.ProcessLine` | adsp_gt_only.cpp:128-139 | the line written is `RewriteLine` of the line read; a line starting with `#` is written unchanged |
| `LineRewriter.RestIsSuffix` | adsp_gt_only.cpp:132-137 | the text left for `ExtractGT` is exactly what follows the nine leading columns in the line |
| `LineRewriter.ParseColumns` | adsp_gt_only.cpp:18-28 | a data line is read exactly when its nine leading columns are non-empty words and POS is digits within the `int` range; otherwise the result is an error |
| `LineRewriter.SampleColumnsOfLine` | adsp_gt_only.cpp:69-74 | the sample columns read are the columns after FORMAT, minus an empty last one |
| `LineRewriter.OutputColumnsOfLine` | adsp_gt_only.cpp:133-138 | the record built and printed for a data line has the columns `ExpectedColumns` of its input columns |
| `LineRewriter.DataLineColumns` | adsp_gt_only.cpp:104-117 | a data line comes out as 9 + (number of samples) tab-separated columns: CHROM, ID, REF, ALT, QUAL, FILTER and INFO unchanged, POS as its decimal value, `GT`, then each sample's genotype in order |
| `LineRewriter.PositionRoundTrip` | adsp_gt_only.cpp:105 | the POS column written out reads back as the POS value read in |
| `LineRewriter.ExpectedColumnsAvoid` | adsp_gt_only.cpp:104-116 | a character that is in no input column, is not a digit and is not in `GT` appears in no output column |
| `LineRewriter.OneLineOut` | adsp_gt_only.cpp:129-130 | a line without a line break produces text without a line break, so exactly one line is written |

## Left out

- The stdin/stdout loop, `sync_with_stdio`, `cin.tie` and the gzip piping (adsp_gt_only.cpp:122-128) are I/O. The model takes one line in and gives one line out. The text excludes the `endl` that ends it.
- Stream extraction with `>>` is not modelled character by character. `ParseDataLine` splits on tabs, and `ParseColumns` accepts a line only if all of the following hold: it has at least nine columns, each leading column is non-empty and contains no white space, and POS is a run of digits no larger than 2147483647.
- LineRewriter.ProcessLine: on lines outside that shape it returns an error, where the source still writes something. For a POS with a sign (`+5`, `-5`) the source reads the number and prints a complete record with POS written as `5` or `-5`; the model rejects the line. For an empty line, a missing column, spaces inside a column, trailing non-digits in POS or a POS beyond the `int` range, the source prints partially read or shifted fields.
- InfoFilter.KeepFlag: it does not evaluate the `ABHet_` numeric test (adsp_gt_only.cpp:48-53). That test uses `std::stod` with floating-point comparisons, and its flag never reaches the result, since line 58 is commented out. A non-numeric `ABHet_` value makes the source throw; the model treats such an entry as kept.
- The commented-out code (adsp_gt_only.cpp:65-68, 79-95, 98, 103, 112, 136) is dead. This covers the AC/AN count, DP/GQ extraction, the `pass` gate, the AF print and the `KeepFlag` call. The fields `ac`, `an`, `dp`, `gq` and `pass` exist but have no behaviour. The numeric ones are uninitialised in the source, and the constructor states nothing about them.
- Text encoding: lines are sequences of characters, and a `\r` left at the end of a line from a CRLF file is not stripped. On a header line it is kept as ordinary text. On a data line with samples it ends up in the last sample column, and it is written out only when that column has no `:`. On a data line with exactly nine columns it sits at the end of FORMAT: the source's `>>` stops before it and prints the record without it, while the model counts `\r` as white space inside a leading column and returns an error.
