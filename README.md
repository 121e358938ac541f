# Protein text readers, modelled in Dafny

This project models the three readers that turn protein text files into
integer-coded structures, in both versions of the program: `main.cpp` (the
live one) and `backup.cpp` (an older variant).

- **Residue alphabet** (`alphabet.dfy`, module `Alphabet`): the 20
  canonical amino-acid letters `ACDEFGHIKLMNPQRSTVWY`, coded by position
  in `letter_int_map`.
- **FASTA decoder** (`fasta.dfy`, module `Fasta`): `load_fasta_sequences`
  of `main.cpp`. It groups lines into records at `>` lines, codes the
  canonical letters, drops every other character, and appends to the
  caller's `headers` / `sequences`.
- **Seed segmenter** (`seeds.dfy`, module `Seeds`): `split_seq` cuts a code
  sequence into windows of `length` at stride `denom`, plus a tail window
  anchored at the end. `load_seed_seq` applies it with stride 10 and
  window 30 to every decoded record.
- **BLOSUM reader** (`blosum.dfy`, module `Blosum`): `read_blosum`. It
  skips `#` lines and stops at the first `*` line. A space-led line extends
  the column alphabet. Each other line fills row `local_alphabets[row_i]`
  of a 20 x 20 table, one signed digit per column, in place in an `array2`.
- **The older variant** (`backup.dfy`, module `Backup`): the same three
  readers as written in `backup.cpp`. Its decoder throws on a character
  outside the alphabet. It never updates `current_header` when it closes a
  record. `split_seq` and `load_seed_seq` return values.

Each loop of the source is a `method` with its loop, proved against a
specification function written as a fold over the lines. Examples are
`Fasta.Decode`, `Seeds.Windows` and `Blosum.Parse`, whose properties are
proved as lemmas. The lines produced by `read_file` are an input
`seq<string>`. `line[0]` on an empty line is the terminating NUL
(`Alphabet.CharAt`), so empty lines need no precondition.

Points where the code behaves differently from what one might expect, and
the model follows the code:
- `(L - 30) / 10` truncates toward zero (`Seeds.TruncDiv`). The comparison
  `seq.size() > num_full_cycles * denom` is unsigned, so a negative right
  side makes it fail (`Seeds.TakesTail`).
- For L >= 30 the tail window is always added, so there are always F + 1
  windows. No full window reaches the end (the last one ends at
  10F + 20 <= L - 10), so the tail never repeats one. When L = 10F + 30
  exactly, the tail is the window at offset 10F that the stride would
  reach next: L = 40 gives [0, 30) and [10, 40), two windows rather than
  one.
- Headers keep their leading `>`.
- `main.cpp` drops an unknown residue. `backup.cpp` throws, because it
  looks up `'X'`, which is not a key. Neither substitutes an "unknown" code.
- A data row's symbol is `local_alphabets[row_i]`, not the row's own
  leading label.
- The tail window does not make coverage complete: for 31 <= L <= 39
  there is no full window, the only window is the last 30 codes, and the
  first L - 30 codes lie in no window (`Seeds.ShortSeedSkipsHead`).

Undefined behaviour in the source becomes a precondition:
- an out-of-range `line[i]` or `local_alphabets[i]` read in `read_blosum`
  (`!Blosum.Parse(lines).OutOfRange?`);
- `seq.end() - length` before `seq.begin()` in `split_seq`
  (`Seeds.SplitDefined`; with 10 and 30 this excludes exactly
  21 <= L <= 29).

The `assert` on a blank header column in `read_blosum` is an explicit
`aborted` result. The exception in `backup.cpp` is `Backup.Outcome.Thrown`.

## Model

| member | source | states |
|---|---|---|
| Alphabet.CanonicalIsLetter | main.cpp:39-46 | a character is in kAlphabtets_set exactly when it is one of the 20 letters of kAlphabtets |
| Alphabet.Code | main.cpp:73 | the code of a canonical letter lies in [0, 19] |
| Alphabet.CodeOfLetter | main.cpp:44-50 | the letter at position i is canonical and its code is i, so codes are dense in [0, 19] |
| Alphabet.LetterOfCode | main.cpp:44-50 | the letter at a canonical letter's code is that letter, so the coding is a bijection |
| Alphabet.CodeInjective | main.cpp:47-50 | distinct letters get distinct codes |
| Alphabet.BuildLetterMap | main.cpp:47-50 | the loop builds a map whose keys are exactly the 20 letters, each mapped to its code |
| Fasta.LineCodes | main.cpp:70-75 | a sequence line contributes at most one code per character, each in [0, 19] |
| Fasta.LineCodesOfCanonical | main.cpp:70-75 | a line of canonical letters is coded letter by letter |
| Fasta.FullyCodedIffCanonical | main.cpp:70-75 | every character of a line is kept exactly when all of them are canonical; otherwise something is dropped |
| Fasta.LineCodesEmpty | main.cpp:70-75 | a line contributes nothing exactly when it holds no canonical letter |
| Fasta.DecodeAppends | main.cpp:55-84 | the caller's vectors keep their contents and both grow by the same count, so the assert at the end holds when they start equal |
| Fasta.DecodeConserves | main.cpp:55-81 | the appended sequences, concatenated, are the codes of all non-header lines in order: nothing is lost or duplicated |
| Fasta.RecordAppend | main.cpp:55-81 | a header line followed by sequence lines holding residues adds exactly one record after those of the lines before: that header, with exactly the codes of those lines |
| Fasta.DecodeRecords | main.cpp:58-81 | every appended sequence is non-empty and holds codes in [0, 19] |
| Fasta.DecodeHeaders | main.cpp:52-80 | every appended header is a whole `>` line of the input or the empty string |
| Fasta.LeadingResiduesGetEmptyHeader | main.cpp:52-80 | when some line k holds residues and neither it nor any earlier line is a header, the first record appended has the header "" |
| Fasta.ConsecutiveHeadersCollapse | main.cpp:56-59 | a header line followed directly by another has no effect on the result |
| Fasta.RecordsKeepTheirHeaders | main.cpp:56-81 | in ordinary FASTA the headers produced are exactly the header lines, in order |
| Fasta.LoadFastaSequences | main.cpp:37-85 | the loop appends the decoded records to the caller's vectors and keeps their size difference |
| Seeds.TruncDiv | main.cpp:90 | integer division truncates toward zero |
| Seeds.WindowFits | main.cpp:91-95 | every full window lies inside the sequence |
| Seeds.FullWindowsAt | main.cpp:91-96 | full window i is the slice of `length` codes at offset i * denom |
| Seeds.SplitSeq | main.cpp:88-103 | the loop appends the windows of the sequence to seed_seqs and leaves its earlier elements unchanged |
| Seeds.SeedSplitDefined | main.cpp:90-101 | with stride 10 and window 30, split_seq stays inside the sequence exactly for L <= 20 or L >= 30 |
| Seeds.SeedWindows | main.cpp:88-103 | for L >= 30: (L-30)/10 + 1 windows, window k < F at offset 10k, and the last window the final 30 codes |
| Seeds.FullWindowsEndBeforeTail | main.cpp:91-102 | every full window ends at least 10 codes before the end, so the tail window is never one of them |
| Seeds.ShortSequenceHasNoSeeds | main.cpp:90-97 | a sequence of at most 20 codes yields no window |
| Seeds.SeedsHaveWidth | main.cpp:113-123 | every window has 30 codes, so the length check cannot fire |
| Seeds.SeedsCover | main.cpp:88-103 | for L == 30 or L >= 40 every position lies in some window |
| Seeds.ShortSeedSkipsHead | main.cpp:88-103 | for 31 <= L <= 39 the only window is the last 30 codes, so the first L - 30 lie in none |
| Seeds.AllWindowsHaveWidth | main.cpp:111-128 | every fragment load_seed_seq returns has 30 codes |
| Seeds.LoadSeedSeq | main.cpp:106-130 | the result is the windows of every decoded record in record order, each of width 30; headers are discarded |
| Blosum.HeaderColumns | main.cpp:161-166 | a header row yields its symbols exactly when it is long enough and no column 3, 6, ..., is blank, and the symbols are those characters |
| Blosum.HeaderFailurePersists | main.cpp:162-165 | the first blank or missing header column decides the row |
| Blosum.CellValueOfDigit | main.cpp:174-182 | a cell is in [-9, 9], negative exactly for `-` before a non-zero digit, zero exactly for the digit `0` |
| Blosum.RowCellsFrame | main.cpp:183-189 | cells of other rows, and of columns no canonical symbol names, keep their value |
| Blosum.RowCellsAt | main.cpp:173-190 | the cell of column j gets the score at 3j + 2 / 3j + 3 unless a later column has the same symbol |
| Blosum.RowCellsIgnoresLabel | main.cpp:173-190 | the cells read depend only on the characters from position 2 on |
| Blosum.StarEndsParsing | main.cpp:158-160 | the first `*` line ends parsing; nothing after it is read |
| Blosum.CommentLinesIgnored | main.cpp:155-157 | dropping the `#` lines does not change the result |
| Blosum.HeaderRowAppends | main.cpp:161-166 | a space-led line appends the 23 characters at 3, 6, ..., 69 to local_alphabets, and aborts when one is a space |
| Blosum.RowLabelIgnored | main.cpp:167-192 | a data row's own leading label plays no part in what it stores |
| Blosum.StuckRowFreezesTable | main.cpp:168-172 | once row_i names a non-canonical symbol, row_i and the table never change again |
| Blosum.CellsFromInput | main.cpp:134-194 | the table is 20 x 20 and each cell is 0 or a score read from some line |
| Blosum.DataRowStep | main.cpp:167-192 | a data row reads inside the line and local_alphabets and fills the row of its symbol, or is skipped when that symbol is not canonical |
| Blosum.HeaderRowStep | main.cpp:161-166 | a header row extends local_alphabets or triggers the assert |
| Blosum.FillRow | main.cpp:173-190 | the cell loop writes row code(row symbol) of the array as RowCells describes |
| Blosum.ReadHeaderRow | main.cpp:162-165 | the header loop appends the row's symbols, or reports the blank column the assert refuses |
| Blosum.ReadBlosum | main.cpp:133-195 | the array holds the table the scan of the lines describes, or the run aborts exactly on a blank header column |
| Backup.AppendLineCodes | backup.cpp:79-86 | the letter loop returns exactly when every character is canonical, and then appends the line's codes |
| Backup.ThrowsIffUnknownResidue | backup.cpp:79-86 | the decoder throws exactly when some sequence line holds a character outside the alphabet |
| Backup.AgreesWithMainOnSequences | backup.cpp:65-92 | when it returns, the sequences are main.cpp's and there is one header per sequence |
| Backup.ReturnedRecords | backup.cpp:59-96 | when it returns, every record is non-empty with codes in [0, 19], and together they are the codes of all sequence lines in order |
| Backup.HeaderSticks | backup.cpp:66-76 | in ordinary FASTA every emitted record carries the first header line, with one record per header line |
| Backup.TwoRecordsHere | backup.cpp:65-92 | on two records h1/r1, h2/r2 the headers are [h1, h1] |
| Backup.TwoRecordsMain | main.cpp:55-81 | on the same two records main.cpp's headers are [h1, h2] |
| Backup.StaleHeaderExample | backup.cpp:70-76 | with h1 != h2 the two versions disagree on the headers |
| Backup.LoadFastaSequences | backup.cpp:44-97 | the loop returns the decoded pair, with equal lengths, or throws as the decoder specifies |
| Backup.SplitSeq | backup.cpp:100-116 | the returned windows are exactly main.cpp's |
| Backup.LoadSeedSeq | backup.cpp:118-132 | throws exactly on an unknown residue; otherwise the windows of main.cpp's records, each of width 30 |
| Backup.ReadBlosum | backup.cpp:136-200 | the same table and the same abort as main.cpp's read_blosum |

## Left out

- `read_file` (main.cpp:15-34, backup.cpp:26-41): file I/O. Its output is the input `lines`. Empty lines are allowed, where `line[0]` is NUL.
- `save` / `load` and the round-trip check in `main`: they wrap the cereal binary archive, whose format is not part of this model.
- Both `main` functions: fixed paths, console output and driver glue.
- The MPI include of `backup.cpp`: never used.
- The `double` cells of `kBlosum` are `int`: each stored value is `(int) c - '0'` for one character `c`, possibly negated, an integer a `double` holds exactly.
- Blosum.CellValue: a line is a string of `char`, which is signed on common targets, so a byte of 0x80 or more at a digit position gives a negative `(int) c`; the model takes the character's non-negative code point there.
- `shrink_to_fit`: it changes capacity only.
- Blosum.ReadBlosum: `kBlosum` is a fresh `array2<int>` rather than a vector of 20 vectors, so the rows cannot alias.
- Seeds.SplitSeq: `(int) seq.size()` and `i * denom` are unbounded integers; 32-bit overflow is not modelled, since it needs sequences of more than 2^31 codes.
- Seeds.LoadSeedSeq: the length check with `std::terminate` is not modelled as a path, because Seeds.SeedsHaveWidth proves it cannot fire.
- Backup.LoadSeedSeq: requires `Backup.SeedsDefined`, which excludes records of 21 to 29 codes, where `split_seq` reads before `begin()`.
- Fasta.LoadFastaSequences: the closing `assert` is stated as the preserved size difference rather than as a failure path; with the empty vectors the program passes it always holds.

## Findings

| source | as written | input that shows it | evidently intended | confidence | as-written member | corrected member |
|---|---|---|---|---|---|---|
| backup.cpp:70-76 | closing a record pushes `current_header` but never sets it to the new `>` line, so every later record keeps the first header | lines `>a`, `A`, `>b`, `C`: headers `[">a", ">a"]` | take the new line as the header, as main.cpp:65 does: headers `[">a", ">b"]` | not executed | Backup.StaleHeaderExample | Fasta.RecordsKeepTheirHeaders |
