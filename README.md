# potoroo, modelled in Dafny

potoroo is a command-line preprocessor for source files. A job names an
input file, an output file and a tag. The tag is `//#p` for C and C++,
`##p` for shell scripts, `@rem #p` for batch files, or a custom string.
The tool copies the input to the output and acts on the lines that start
with the tag followed by a keyword:

- `rm` … `endrm` removes a block of lines;
- `rmn d` removes the directive line and the `d` lines after it;
- `ins` removes only the tag and the keyword, and keeps the rest of the
  line.

Jobs come from the command line or from a job file, one job per line.
Errors and warnings are counted per job and summed over the run.

The model follows the structure of the source, one module per concern.
util.cpp and processor.cpp are each split in two, and the scanner and the
job processing each have a second module that holds their lemmas.

| module | file | source |
|---|---|---|
| `Util` | util.dfy | `Result` and its operators, digit strings (src/middleware/util.cpp) |
| `LineEndings` | line_ending.dfy | `detectLineEnding` and `convertLineEnding` (src/middleware/util.cpp) |
| `Versions` | version.dfy | `Version`: comparisons, `toString`, `toVector`, `toArray` (src/middleware/version.cpp) |
| `Args` | arg.dfy | `Arg`, the class `ArgList`, `argProc`, `argProcJF`, `wSupStrListToVector` (src/application/arg.cpp) |
| `Jobs` | job.dfy | `Job`, the job-file reader, `parseArgs`, `parseFile` (src/application/job.cpp) |
| `Scanner`, `ScannerProperties` | scanner.dfy, scanner_props.dfy | `readsome` and the directive scanner `caterpillarProc` (src/application/processor.cpp) |
| `Processor`, `ProcessorProperties` | processor.dfy, processor_props.dfy | `processJob` and `processJobs` (src/application/processor.cpp) |

Where the source works by loops and state, the model has methods with loop
invariants. The class `ArgList` keeps its list in a `seq` field. The input
stream of `caterpillarProc` is the class `InputFile`. Each method is proved
equal to a specification function. The properties below are proved about
those functions.

Files are described by values:

- An `InStream` holds the bytes of a file. It also says whether a read at
  the end fails as an I/O error instead of reaching end of file.
- An `Env` describes the file system as one job meets it:
  - whether the input exists and can be opened;
  - whether the output is the input itself;
  - how many of the removals in `rmOut` fail.
- The chunk size of `caterpillarProc` is a parameter `min`. `PbSizeMin` is
  its value in a release build.

Where the code and its documentation disagree, the model follows the code:

- `detectLineEnding` gives LF for an empty file. It does not report an
  undetectable line ending for it.
- The warning "no new line after expression" looks only at the byte right
  after the keyword and its argument. It fires when that byte exists and
  is not LF.
- The `-Werror` error is added after the output file was kept or removed
  (processor.cpp:581 and 605-609). A job that fails only because of
  `-Werror` keeps its output.
- `ins` skips exactly one byte after the keyword, whatever it is. When that
  byte is the LF, the line is joined with the next one.
- `endrm` without an open block is an error. The line is still written,
  without the tag and the keyword.

## Model

| member | source | states |
|---|---|---|
| Util.Errors | src/middleware/util.cpp:28-31 | `Result(ne)` has `ne` errors and no warning |
| Util.OneMoreError | src/middleware/util.cpp:46-51 | one more error is `+= Result(1)` |
| Util.OneMoreWarning | src/middleware/util.cpp:46-51 | one more warning is `+= Result(0, 1)` |
| Util.Add | src/middleware/util.cpp:41-51 | `+` and `+=` add errors to errors and warnings to warnings; `Result()` is its identity and it commutes and associates (`AddIdentity`, `AddCommutes`, `AddAssociates`) |
| Util.Exceeds | src/middleware/util.cpp:53-56 | `r > n`: for counts that are not negative, decided by the total alone (`ExceedsBySum`) |
| Util.EqualsBoth | src/middleware/util.cpp:58-61 | `r == n`: both counters equal `n`; `r == 0` exactly for `Result()` (`EqualsZeroIsZero`) |
| Util.AddIdentity | src/middleware/util.cpp:21-51 | `Result()` is a left and right identity of `+` |
| Util.AddCommutes | src/middleware/util.cpp:41-51 | `+` is commutative |
| Util.AddAssociates | src/middleware/util.cpp:41-51 | `+` is associative |
| Util.ExceedsBySum | src/middleware/util.cpp:53-56 | for counts that are not negative, `r > n` holds exactly when `err + warn > n` |
| Util.EqualsZeroIsZero | src/middleware/util.cpp:58-61 | `r == 0` holds exactly for `Result()` |
| Util.Sum | src/application/processor.cpp:638-651 | what `pr += lastR` leaves after each job; it splits over concatenation (`SumAppend`) and counts the errors and the warnings of its parts (`SumComponents`) |
| Util.SumAppend | src/application/processor.cpp:641-651 | summing two runs of results is adding their sums |
| Util.SumComponents | src/application/processor.cpp:641-651 | the sum of results counts exactly the errors and the warnings of the parts |
| Util.NatToString | src/middleware/version.cpp:60 | `std::to_string` of a natural number is a non-empty string of decimal digits |
| Util.NatToStringValue | src/middleware/version.cpp:60 | the digits written for `n` have the value `n` |
| Util.Stoi | src/application/arg.cpp:398 | a number read by the restricted `std::stoi` fits in an `int` |
| Util.StoiOfIntToString | src/middleware/version.cpp:60 | `stoi` reads back what `to_string` writes, for every `int`; the text is digits after an optional minus |
| LineEndings.Detect | src/middleware/util.cpp:241-303 | the line ending of a file: decided by its first break, LF without a break, error only on a failing read (`DetectFirstLF`, `DetectFirstCRLF`, `DetectFirstCR`, `DetectLastCR`, `DetectNoBreak`, `DetectErrorOnlyOnFailure`) |
| LineEndings.DetectLineEnding | src/middleware/util.cpp:241-303 | the two-byte window loop returns the line ending of the reference scan `Detect` |
| LineEndings.DetectSkips | src/middleware/util.cpp:254-297 | bytes that are neither CR nor LF never decide; the scan moves past them |
| LineEndings.DetectFirstLF | src/middleware/util.cpp:260-264 | an LF with no CR and no LF before it makes the file LF |
| LineEndings.DetectFirstCRLF | src/middleware/util.cpp:270-274 | a first CR followed by LF makes the file CRLF |
| LineEndings.DetectFirstCR | src/middleware/util.cpp:265-269 | a first CR followed by any other byte makes the file CR |
| LineEndings.DetectLastCR | src/middleware/util.cpp:277-294 | a first CR that is the last byte gives CR at end of file, `error` on a read failure |
| LineEndings.DetectNoBreak | src/middleware/util.cpp:277-294 | no CR and no LF at all (an empty file included) gives LF, or `error` on a read failure |
| LineEndings.DetectErrorOnlyOnFailure | src/middleware/util.cpp:243-249 | `error` is the outcome only of a failing read (an unopenable file reads as one) |
| LineEndings.Convert | src/middleware/util.cpp:316-424 | the bytes and the code of a conversion: the codes tied to their causes (`ConvertCodes`), the identity to the same ending (`ConvertToSameIsIdentity`), and the four round trips (`LfCrlfRoundTrip`, `LfCrRoundTrip`, `CrlfLfRoundTrip`, `CrLfRoundTrip`) |
| LineEndings.ConvertLineEnding | src/middleware/util.cpp:316-424 | bytes written and the code returned are those of the reference rewriting `Convert` |
| LineEndings.ConvertCrlfLoop | src/middleware/util.cpp:331-386 | the CRLF-source loop writes what `ConvertPairs` describes: only CR LF pairs are breaks, a CR is copied with the byte after it |
| LineEndings.ConvertSingleLoop | src/middleware/util.cpp:387-413 | the LF- or CR-source loop writes what `ConvertSingle` describes: each break byte replaced, every other byte copied |
| LineEndings.ConvertCodes | src/middleware/util.cpp:316-424 | codes are 0..3; 1 exactly for an invalid source; 2 only for an invalid target; 3 only for a CRLF source with a read failure; 0 when both endings are valid and reading does not fail |
| LineEndings.SingleCodes | src/middleware/util.cpp:387-413 | an LF or CR source gives 2 exactly when the target is invalid and a break byte occurs, 0 otherwise |
| LineEndings.PairsCodes | src/middleware/util.cpp:331-386 | a CRLF source gives 0, 2 (invalid target) or 3 (read failure) |
| LineEndings.SingleWithoutBreak | src/middleware/util.cpp:387-413 | with no break byte in the data the output is the input |
| LineEndings.PairsWithoutCR | src/middleware/util.cpp:331-386 | with a CRLF source and no CR the output is the input |
| LineEndings.ConvertToSameIsIdentity | src/middleware/util.cpp:331-413 | converting to the ending a file already has is the identity (for CRLF, when reading does not fail) |
| LineEndings.SingleSameIsIdentity | src/middleware/util.cpp:387-413 | replacing a break byte by itself changes nothing |
| LineEndings.PairsSameIsIdentity | src/middleware/util.cpp:331-386 | CRLF to CRLF changes nothing |
| LineEndings.LfCrlfRoundTrip | src/middleware/util.cpp:331-413 | data without CR survives LF to CRLF and back |
| LineEndings.LfCrRoundTrip | src/middleware/util.cpp:387-413 | data without CR survives LF to CR and back |
| LineEndings.CrlfLfRoundTrip | src/middleware/util.cpp:331-413 | data whose breaks are all CR LF pairs survives CRLF to LF and back |
| LineEndings.CrLfRoundTrip | src/middleware/util.cpp:387-413 | data without LF survives CR to LF and back |
| Versions.ToVector | src/middleware/version.cpp:36-45 | `toVector` has three entries |
| Versions.VectorRoundTrip | src/middleware/version.cpp:36-45 | the three entries are major, minor and revision in order: the version is rebuilt from them |
| Versions.ToArray | src/middleware/version.cpp:47-56 | null: returns 1 and writes nothing; otherwise writes `toVector` to `dest[0..3]`, leaves the rest, returns 0 |
| Versions.FirstDot | src/middleware/version.cpp:60 | the first '.' of a string, used to read a printed version back |
| Versions.ToString | src/middleware/version.cpp:58-61 | the three numbers in decimal, separated by dots; they read back to the version (`ToStringRoundTrip`) and different versions print differently (`ToStringInjective`) |
| Versions.ToStringRoundTrip | src/middleware/version.cpp:58-61 | `toString` is three decimal numbers separated by dots: reading them back gives the version |
| Versions.ToStringInjective | src/middleware/version.cpp:58-61 | different versions print differently |
| Versions.ProjectVersionReported | src/project.h:16 | `project::version` 0.2.0 is later than `Version()` and prints as a version that reads back to itself |
| Versions.Less | src/middleware/version.cpp:63-75 | `<`: the first of major, minor, revision that differs decides; it is the lexicographic order of `toVector` (`LessIsLexicographic`), irreflexive and transitive (`LessIrreflexive`, `LessTransitive`) |
| Versions.Greater | src/middleware/version.cpp:77-89 | `>`: `<` with the operands swapped (`GreaterIsConverse`) |
| Versions.LessEq | src/middleware/version.cpp:91-94 | `<=`: `<` or `==` (`NonStrictOrders`) |
| Versions.GreaterEq | src/middleware/version.cpp:96-99 | `>=`: `>` or `==` (`NonStrictOrders`) |
| Versions.Equal | src/middleware/version.cpp:101-111 | `==`: the same version (`EqualIsIdentity`); exactly one of `<`, `==`, `>` holds (`Trichotomy`) |
| Versions.NotEqual | src/middleware/version.cpp:113-116 | `!=`: different versions (`NonStrictOrders`) |
| Versions.LessIsLexicographic | src/middleware/version.cpp:63-75 | `<` is the lexicographic order of `toVector` |
| Versions.GreaterIsConverse | src/middleware/version.cpp:77-89 | `a > b` exactly when `b < a` |
| Versions.EqualIsIdentity | src/middleware/version.cpp:101-111 | `==` is equality of the three numbers |
| Versions.Trichotomy | src/middleware/version.cpp:63-111 | exactly one of `<`, `==`, `>` holds |
| Versions.NonStrictOrders | src/middleware/version.cpp:91-116 | `<=` is `<` or `==`, `>=` is `>` or `==`, `!=` is inequality |
| Versions.LessTransitive | src/middleware/version.cpp:63-75 | `<` is transitive |
| Versions.LessIrreflexive | src/middleware/version.cpp:63-75 | `<` is irreflexive |
| Args.NewArg | src/application/arg.cpp:95-114 | a fresh argument has the type its flag string names and is valid exactly for a known switch (a flag that takes no value) |
| Args.SetValue | src/application/arg.cpp:126-134 | an argument of unknown type keeps its value and stays invalid; any other takes the value and becomes valid |
| Args.TypeOf | src/application/arg.cpp:98-110 | the type a flag string names, aliases included, otherwise the invalid type; every known type has a flag that maps to it (`TypeOfFlagString`, `TypeOfKnown`) |
| Args.TakesValue | src/application/arg.cpp:136-151 | `hasValue`: false exactly for `-Werror`, `--copy`, `--copy-ow`, `--force-jf`, help and version; a fresh argument of those types is valid (`NewArg`) and the others take the next token (`ArgList.AddAll`) |
| Args.TypeOfFlagString | src/application/arg.cpp:98-109 | every known type has a flag string that maps back to it |
| Args.TypeOfKnown | src/application/arg.cpp:98-110 | a string names a type exactly when it is a known flag; `-h`/`--help` both give help and `-v`/`--version` both give version |
| Args.FirstOfType | src/application/arg.cpp:212-220 | `get(t)` is the first argument of type `t`, or `Arg()` when there is none |
| Args.ContainsIffCount | src/application/arg.cpp:192-237 | `contains(t)` holds exactly when `count(t) > 0` |
| Args.CountAppend | src/application/arg.cpp:227-237 | `count(t)` of a concatenation is the sum of the counts |
| Args.ArgList.constructor | src/application/arg.cpp:177-180 | a new list is empty |
| Args.ArgList.Add | src/application/arg.cpp:182-185 | `add` appends the argument and changes nothing else |
| Args.ArgList.Clear | src/application/arg.cpp:187-190 | `clear` empties the list |
| Args.ArgList.Contains | src/application/arg.cpp:192-200 | the search loop answers whether some argument has type `t` |
| Args.ArgList.ContainsInvalid | src/application/arg.cpp:202-210 | the search loop answers whether some argument is invalid |
| Args.ArgList.Get | src/application/arg.cpp:212-220 | the search loop returns the first argument of type `t`, or `Arg()` |
| Args.ArgList.Count | src/application/arg.cpp:222-225 | `count()` is the length of the list |
| Args.ArgList.CountOf | src/application/arg.cpp:227-237 | the counting loop returns the number of arguments of type `t` |
| Args.ArgList.ParseArgv | src/application/arg.cpp:256-295 | a null `argv` gives an empty list; otherwise the arguments made from `argv[1..]` up to the first null entry, a value-taking flag consuming the next token |
| Args.ArgList.ArgvCount | src/application/arg.cpp:261-268 | `argc` is cut at the first null entry |
| Args.ArgvLength | src/application/arg.cpp:261-268 | the cut `argc` is at most `argc`, every entry before it is present and the entry at it is null |
| Args.ArgvLengthIs | src/application/arg.cpp:261-268 | the cut is the unique index with those properties |
| Args.ArgvStrings | src/application/arg.cpp:273-286 | the strings turned into arguments are `argv[1..n]` in order |
| Args.ArgList.AddAll | src/application/arg.cpp:273-286 | the argument loop appends exactly the arguments `ArgsOf` makes from `argv[1..n]` |
| Args.ArgsStep | src/application/arg.cpp:275-285 | one pass of the argument loop: the argument made from a token, with the next token as its value when it takes one |
| Args.ArgsOfUnparse | src/application/arg.cpp:273-286 | well-formed arguments written out as flags and values are parsed back to the same arguments |
| Args.SkipBlanks | src/application/arg.cpp:305 | stops at the first byte that is not a space or tab |
| Args.QuoteEnd | src/application/arg.cpp:312-316 | a quoted token runs to the next `"` or NUL |
| Args.WordEnd | src/application/arg.cpp:326-330 | an unquoted token runs to the next space, tab or NUL |
| Args.NextToken | src/application/arg.cpp:303-335 | each token read moves the position forward |
| Args.TokensFromStep | src/application/arg.cpp:303-335 | the tokens from a position are the next token and the tokens after it, or none |
| Args.Tokenize | src/application/arg.cpp:303-335 | the tokenising loop produces `Tokens(s)` |
| Args.ReadToken | src/application/arg.cpp:305-334 | one pass: skips blanks, then reads a quoted token without its quotes, or an unquoted token, or reports that only blanks remain |
| Args.TokenStep | src/application/arg.cpp:303-335 | a token read extends the list by exactly that token |
| Args.NoTokenStep | src/application/arg.cpp:303-305 | only blanks before the end make no token |
| Args.SkipBlanksLoop | src/application/arg.cpp:305 | the blank-skipping loop stops where `SkipBlanks` does |
| Args.ReadUntil | src/application/arg.cpp:312-330 | copies exactly the characters up to the token's end |
| Args.BlanksMakeNoToken | src/application/arg.cpp:305 | runs of blanks produce no token |
| Args.TokensOfQuoteJoin | src/application/arg.cpp:307-321 | tokens without `"` or NUL written in quotes are tokenised back, empty ones included |
| Args.TokensJoinAt | src/application/arg.cpp:307-321 | the same after any prefix |
| Args.QuotedAt | src/application/arg.cpp:307-321 | a quoted token is read without its quotes and the scan continues after the closing quote |
| Args.ArgsOfSomeString | src/application/arg.cpp:297-370 | `parse(const char*)` is `parse(argc, argv)` on the tokens after an empty `argv[0]` |
| Args.ArgList.ParseString | src/application/arg.cpp:297-370 | a null string gives an empty list; otherwise the arguments of its tokens |
| Args.ParseStringRoundTrip | src/application/arg.cpp:297-370 | well-formed arguments written as quoted flags and values are parsed back by `parse(const char*)` |
| Args.TokensOfUnparse | src/application/arg.cpp:297-370 | the quoted written-out form tokenises to the written-out tokens |
| Args.UnparseQuotable | src/application/arg.cpp:307-321 | flag strings and quotable values make quotable tokens |
| Args.CountCond | src/application/arg.cpp:21-27 | `argProc_cond(args, n)`: `n` arguments, or `n + 1` of which one is `--force-jf` (`ArgProcDefault`, `ArgProcJobFile`) |
| Args.CondIn | src/application/arg.cpp:29-33 | exactly one input file, and it is valid (`ArgProcJFAccepts`) |
| Args.CondOut | src/application/arg.cpp:34-41 | one valid output file and no output directory, or the other way round (`ArgProcJFAccepts`) |
| Args.CondTag | src/application/arg.cpp:42-49 | no tag, or exactly one valid tag (`ArgProcJFAccepts`) |
| Args.CondMisc | src/application/arg.cpp:50-84 | no `-jf`, no invalid argument, at most one of `--copy` and `--copy-ow` (`ArgProcJFAccepts`) |
| Args.ArgProcJF | src/application/arg.cpp:437-483 | `process` exactly when all four conditions hold, with an empty message exactly then (`ArgProcJFAccepts`) |
| Args.ArgProcJFAccepts | src/application/arg.cpp:21-84 | `argProcJF` returns `process` exactly when there is one valid `-if`; one valid `-of` xor one valid `-od`; at most one tag, valid; no `-jf`; no invalid argument; at most one of `--copy`/`--copy-ow`; it returns `error` otherwise; the message is empty exactly on `process` |
| Args.DefaultJobFileArg | src/application/arg.cpp:422-423 | the default argument is a valid `-jf` with value `./potorooJobs` |
| Args.ArgProc | src/application/arg.cpp:415-435 | `argProc` returns the verdict of `ArgProcOutcome` and leaves the list as `ArgsAfterProc` says: the default job file appended exactly when neither help nor version is given and the list is empty or only `--force-jf` |
| Args.ListVerdict | src/application/arg.cpp:427-434 | with `-jf`: `loadFile` exactly for one argument (two with `--force-jf`) and a valid `-jf`, else `error`; without `-jf`: the verdict of `argProcJF` |
| Args.ArgProcHelpFirst | src/application/arg.cpp:417-418 | help wins over everything, then version |
| Args.ArgProcDefault | src/application/arg.cpp:420-429 | with no argument or only `--force-jf`, the default job file is appended and loaded |
| Args.ArgProcJobFile | src/application/arg.cpp:427-431 | with `-jf` given, `loadFile` exactly when it is alone (besides `--force-jf`) and valid, else `error` |
| Args.ArgProcNoJobFile | src/application/arg.cpp:433-434 | with no `-jf` and more than the default case, the verdict is `argProcJF`'s |
| Args.CommaEnd | src/application/arg.cpp:384-388 | an element runs to the next comma or the end |
| Args.ParseInts | src/application/arg.cpp:396-404 | succeeds exactly when every element parses; then holds the parsed numbers in order |
| Args.WSupStrListToVector | src/application/arg.cpp:374-409 | returns 0 and the numbers of the comma-separated elements when all parse, else 1 and `list` unchanged |
| Args.SplitLoop | src/application/arg.cpp:381-391 | the splitting loop produces `SplitCommas(s)` |
| Args.ReadPart | src/application/arg.cpp:383-390 | one pass reads one element, skips the comma and keeps the split invariant |
| Args.SplitFinished | src/application/arg.cpp:381-391 | when the position reaches or passes the end, the split is complete |
| Args.SplitStep | src/application/arg.cpp:383-390 | an element read and appended keeps the split invariant |
| Args.SplitFromMore | src/application/arg.cpp:383-390 | an element followed by a comma is followed by the elements after it |
| Args.SplitFromLast | src/application/arg.cpp:383-390 | an element with no comma after it is the last one |
| Args.ReadToComma | src/application/arg.cpp:383-388 | copies the characters up to the next comma or the end |
| Args.SplitJoinCommas | src/application/arg.cpp:381-391 | comma-free elements joined with commas are split back (when the last one is not empty: a trailing comma adds no element) |
| Args.SplitJoinAt | src/application/arg.cpp:381-391 | the same after any prefix |
| Args.FirstElement | src/application/arg.cpp:384-388 | the first element written after a prefix ends at the next comma |
| Args.WSupListRoundTrip | src/application/arg.cpp:374-409 | numbers written with `to_string` and joined with commas are read back |
| Args.ParseIntsOf | src/application/arg.cpp:396-404 | elements that each parse give their numbers in order |
| Jobs.NewJob | src/application/job.cpp:328-339 | a job built from files, tag and `-Werror` is valid with an empty message, keeps tag and `-Werror`, and stores both files in `lexically_normal` form, which normalising again leaves unchanged |
| Jobs.InvalidJob | src/application/job.cpp:323-326 | a `Job()` made invalid carries the message it was given and no `-Werror` |
| Jobs.BlankEnd | src/application/job.cpp:103 | the blank-skipping loop stops at a byte that is not a tab or space, or at the last byte |
| Jobs.CommentEnd | src/application/job.cpp:106-116 | the comment loop stops at an LF, at a CR followed by LF, or at the last byte, and moves when it can |
| Jobs.DataEnd | src/application/job.cpp:139-148 | the data loop stops where a record must stop (comment, LF, CR LF, last byte) and moves when it can |
| Jobs.ExtractLines | src/application/job.cpp:93-153 | the pointer loop appends exactly the records of the reference function `Extract` |
| Jobs.SkipBlankBytes | src/application/job.cpp:103 | the blank-skipping loop stops where `BlankEnd` does |
| Jobs.SkipComment | src/application/job.cpp:108-115 | the comment loop stops where `CommentEnd` does |
| Jobs.ReadData | src/application/job.cpp:135-148 | the data loop appends exactly the bytes up to `DataEnd` |
| Jobs.ExtractStep | src/application/job.cpp:100-152 | one pass of the outer loop: comment skipped, LF or CR LF counted as a new line, or one record pushed |
| Jobs.DataEndClean | src/application/job.cpp:139-148 | the bytes of a record hold no `#` and no LF |
| Jobs.ExtractClean | src/application/job.cpp:100-152 | no record holds `#` or LF, and none starts with a tab or space |
| Jobs.LinesAtLeast | src/application/job.cpp:95-130 | no record lies before the current line |
| Jobs.AfterBreak | src/application/job.cpp:118-130 | after an LF or CR LF every record lies on a later line |
| Jobs.AfterStop | src/application/job.cpp:106-148 | after a record ends, the next record lies on a later line |
| Jobs.AscendingCons | src/application/job.cpp:150 | a record on an earlier line before ascending records keeps them ascending |
| Jobs.LinesIncrease | src/application/job.cpp:93-153 | line numbers strictly increase along the records: at most one record per line |
| Jobs.ExtractShape | src/application/job.cpp:93-153 | the records of a buffer are clean, numbered from line 1, in increasing line order |
| Jobs.NumberedAt | src/application/job.cpp:95-150 | the i-th record of a plain file is its i-th line, numbered from 1 |
| Jobs.NumberedLength | src/application/job.cpp:95-150 | a plain file has as many records as lines |
| Jobs.ExtractPlainLines | src/application/job.cpp:93-153 | a file of plain lines each ended by LF gives one record per line, with the line's bytes, numbered from 1 |
| Jobs.AllPlainOf | src/application/job.cpp:93-153 | every line of a plain file is plain |
| Jobs.ExtractJoinFrom | src/application/job.cpp:93-153 | the records of plain lines from any position are those lines, numbered on |
| Jobs.JoinRest | src/application/job.cpp:118-123 | after a line and its LF come the other lines |
| Jobs.JoinStep | src/application/job.cpp:132-151 | the first plain line gives its record, then the records of the rest |
| Jobs.SplitLine | src/application/job.cpp:118-123 | a line ended by LF is split at that LF |
| Jobs.PlainLineAt | src/application/job.cpp:132-151 | a plain line ended by LF is one record and the scan goes on on the next line |
| Jobs.PlainDataEnd | src/application/job.cpp:139-148 | the data of a plain line runs to its LF |
| Jobs.CrlfAgrees | src/application/job.cpp:126 | only the last byte's CR LF test looks past the buffer |
| Jobs.CommentEndAgrees | src/application/job.cpp:108-115 | the comment loop does not depend on the byte past the buffer when the last CR LF test agrees |
| Jobs.DataEndAgrees | src/application/job.cpp:139-148 | the data loop does not depend on it either |
| Jobs.ExtractAgrees | src/application/job.cpp:93-153 | the records do not depend on the byte past the buffer when the last CR LF test agrees |
| Jobs.ExtractInBounds | src/application/job.cpp:93-153 | with the CR LF test kept inside the buffer, the records equal those of the code as written whenever its read past the end decides nothing |
| Jobs.ExtractReadsPastBuffer | src/application/job.cpp:126 | the code as written: a file ending in a space and a CR gives no record if the byte after the buffer is LF, and an empty record on line 2 otherwise |
| Jobs.ReadJobFile | src/application/job.cpp:159-248 | result and records are those of `JobFileContents`: missing file -1, empty file one warning, 1 to 7 bytes -1, UTF-32/UTF-16 marks -1, a UTF-8 mark skipped, one warning when the last byte is not LF, then the records |
| Jobs.ReadJobFileOutcome | src/application/job.cpp:173-237 | -1 exactly for a missing or short file or a UTF-16/UTF-32 mark, with no warning and no record; otherwise no error and one warning exactly when the file is empty or does not end with LF |
| Jobs.Utf8MarkSkipped | src/application/job.cpp:217-218 | a UTF-8 mark in front of a file changes nothing |
| Jobs.ReadJobFileRecords | src/application/job.cpp:217-226 | the records of a file are clean, from line 1 on, in increasing line order |
| Jobs.JoinLinesEndsWithLF | src/application/job.cpp:220-224 | a file of lines each ended by LF ends with LF, so no warning |
| Jobs.ReadPlainJobFile | src/application/job.cpp:159-248 | a file of plain lines each ended by LF is read without error or warning, one record per line |
| Jobs.FileName | src/application/job.cpp:478 | `filename()` is the part after the last '/' |
| Jobs.LastDot | src/application/job.cpp:489 | the last '.' of a name, after which there is no other |
| Jobs.Extension | src/application/job.cpp:489 | `path::extension()`: empty, or from the last '.' of the file name on (`ExtensionShape`, `ExtensionOf`) |
| Jobs.ExtensionShape | src/application/job.cpp:489 | an extension is empty or a '.' followed by neither '.' nor '/', and it ends the path |
| Jobs.FileNameAfter | src/application/job.cpp:477-479 | a name without '/' after a directory ending in '/' is the file name |
| Jobs.JoinPath | src/application/job.cpp:477-479 | `dir /= name`: starts with `dir` and has file name `name` (`FileNameOfJoin`, `FileNameAfter`) |
| Jobs.FileNameOfJoin | src/application/job.cpp:477-479 | `dir /= name` starts with `dir` and has file name `name` |
| Jobs.ExtensionOf | src/application/job.cpp:489 | `stem.ext` has extension `.ext` |
| Jobs.LastDotAt | src/application/job.cpp:489 | the '.' starting a suffix without other dots is the last one |
| Jobs.SplitSlash | src/application/job.cpp:331 | the names between the '/'s of a path, one more than there are '/'s, none holding a '/'; joining them back gives the path (`SplitJoin`) |
| Jobs.LexicallyNormal | src/application/job.cpp:331-335 | `lexically_normal()` on a POSIX path: empty exactly for the empty path and absolute exactly when the path is (further properties in `LexicallyNormalIdempotent`, `LexicallyNormalDot`, `LexicallyNormalCancel`) |
| Jobs.RenderStart | src/application/job.cpp:331-335 | a normal path written out is not empty and starts with '/' exactly when absolute |
| Jobs.NormalNamesForm | src/application/job.cpp:331-335 | the names kept contain no empty name, no "." and no '/', and ".." only at the front of a relative path |
| Jobs.NormalNamesKeep | src/application/job.cpp:331-335 | names already in normal form are all kept |
| Jobs.NormalNamesSnoc | src/application/job.cpp:331-335 | the names are processed one by one from the front |
| Jobs.SplitNoSlash | src/application/job.cpp:331 | a path without '/' is one name |
| Jobs.SplitAfterName | src/application/job.cpp:331 | a name, a '/' and the rest split into that name and the names of the rest |
| Jobs.SplitJoin | src/application/job.cpp:331 | splitting at '/' undoes joining names that hold no '/' |
| Jobs.JoinSlashTrailing | src/application/job.cpp:331 | a trailing '/' adds an empty last name |
| Jobs.SplitRender | src/application/job.cpp:331-335 | the names of a normal path written out are its names, with an empty first name for the root and an empty last name for a trailing '/' |
| Jobs.NormalNamesRendered | src/application/job.cpp:331-335 | normalising the names of a normal path, root or trailing '/' included, gives its names back |
| Jobs.RenderFixedEmpty | src/application/job.cpp:331-335 | "/" and "." are their own normal forms |
| Jobs.RenderFixed | src/application/job.cpp:331-335 | a path in normal form is its own normal form |
| Jobs.LexicallyNormalIdempotent | src/application/job.cpp:331-335 | normalising twice gives what normalising once does |
| Jobs.LexicallyNormalDot | src/application/job.cpp:331-335 | a leading `./` of a relative path makes no difference |
| Jobs.LexicallyNormalCancel | src/application/job.cpp:331-335 | a name followed by `..` normalises to `.` |
| Jobs.LexicallyNormalDotNames | src/application/job.cpp:331-335 | a relative path in normal form behind `./` normalises to itself without the `./` |
| Jobs.LexicallyNormalExample | src/application/job.cpp:411 | the input file `./a dir/asdf.ext` of a job line is stored as `a dir/asdf.ext` |
| Jobs.TagCondCpp | src/application/job.cpp:52-62 | `.php`, `.js`, `.c`, `.cpp`, `.h`, `.hpp` ask for `//#p`; no extension asks for two tags (`TagCondsDisjoint`) |
| Jobs.TagCondBash | src/application/job.cpp:64-69 | `.sh` asks for `##p` (`TagCondsDisjoint`) |
| Jobs.TagCondBatch | src/application/job.cpp:71-77 | `.bat` and `.cmd` ask for `@rem #p` (`TagCondsDisjoint`) |
| Jobs.TagCondsDisjoint | src/application/job.cpp:52-77 | no extension asks for two kinds of comment |
| Jobs.ChooseTag | src/application/job.cpp:493-506 | a `custom:` value taken literally; otherwise the first of the C++, shell and batch tags whose extension or `-t` name matches, or none (`ChooseTagChoices`) |
| Jobs.ChooseTagChoices | src/application/job.cpp:493-506 | a `custom:` tag is taken literally whatever the extension; any other chosen tag is one of the three built-in ones; without `-t` the extension alone decides |
| Jobs.BuildJob | src/application/job.cpp:493-518 | the job from the files, the tag value and `-Werror`, or the reason it is invalid (`BuildJobValid`) |
| Jobs.BuildJobValid | src/application/job.cpp:493-518 | the job is valid exactly when a tag of at most 15 characters is chosen, and then is `NewJob` of the files, that tag and `-Werror`, so its files are normalised; otherwise its message says which rule failed |
| Jobs.OutPath | src/application/job.cpp:469-486 | the `-of` value when given, otherwise the `-od` directory joined with the input's file name (`OutPathInDir`) |
| Jobs.OutPathInDir | src/application/job.cpp:469-486 | the output is the `-of` value when given, otherwise a path in the `-od` directory with the input's file name |
| Jobs.ParseArgs | src/application/job.cpp:458-519 | `Job::parseArgs`: valid exactly when a tag of at most 15 characters is chosen, and then the normalised `-if` value and `OutPath`, the tag and `-Werror` (`ParseArgsJob`) |
| Jobs.ParseArgsJob | src/application/job.cpp:458-519 | `parseArgs` is valid exactly when a short enough tag is chosen, and then reads the normal form of the `-if` value, writes the normal form of `OutPath` (the tag being chosen from the extension before normalising) and takes warnings as errors exactly with `-Werror` |
| Jobs.ToChars | src/application/job.cpp:429 | the characters handed to the parser are the record's bytes |
| Jobs.LineJob | src/application/job.cpp:429-451 | the job of one record, kept only when `argProcJF` and `parseArgs` both accept; it is then valid (`ParseRecord`, `LineJobValid`) |
| Jobs.ParseRecord | src/application/job.cpp:429-433 | a record's arguments checked by `argProcJF` and turned into a job by `parseArgs`: the job is kept exactly when both accept |
| Jobs.ParseFile | src/application/job.cpp:391-456 | result and jobs are those of `ParseFileResult` |
| Jobs.ParseRecords | src/application/job.cpp:427-453 | the loop adds one error per rejected record, keeps the warnings and appends the accepted jobs in file order |
| Jobs.ParseStep | src/application/job.cpp:435-451 | one record adds its job or one rejection |
| Jobs.AcceptedCount | src/application/job.cpp:427-453 | every record is either accepted or rejected |
| Jobs.AcceptedOrigin | src/application/job.cpp:427-453 | every accepted job is the job of some record |
| Jobs.LineJobValid | src/application/job.cpp:440-451 | every accepted job is valid, with a tag of at most 15 characters |
| Jobs.ParseFileCounts | src/application/job.cpp:391-456 | a file that cannot be read gives -1 and no job; otherwise errors plus jobs count the records, the warnings are those of reading, and every job is valid and comes from a record |
| Scanner.AsBytes | src/application/processor.cpp:167 | a `std::string` gives one byte per character |
| Scanner.GetKW | src/application/processor.cpp:96-107 | each keyword is recognised exactly when the word is its spelling; anything else is `unknown` |
| Scanner.KeywordSpelling | src/application/processor.cpp:26-29 | the byte constants spell `rm`, `endrm`, `rmn` and `ins` |
| Scanner.SpacesEnd | src/application/processor.cpp:247-252 | the blank-skipping loops stop at the first byte that is not a tab or space, or at the end |
| Scanner.TokenEnd | src/application/processor.cpp:281-286 | the word loops stop at the first tab, space or LF, or at the end |
| Scanner.LineEnd | src/application/processor.cpp:385-390 | the copy loop stops at the first LF, or at the end |
| Scanner.NextLine | src/application/processor.cpp:394-399 | the next line starts past the LF, and always past the current byte |
| Scanner.IsDirective | src/application/processor.cpp:255-258 | the tag test `p < pMax - tag.length()` and the comparison; a line that fails it is copied as it is outside any scope (`PlainLineCopied`) |
| Scanner.InScope | src/application/processor.cpp:291 | a tag inside an `rm` block (except `endrm`) or while `rmn` lines are pending is only warned about (`ScopedDirectiveIgnored`, `BlockDropsLines`) |
| Scanner.LineStep | src/application/processor.cpp:242-416 | one pass of the line loop moves forward and never lowers a counter |
| Scanner.DirectiveLine | src/application/processor.cpp:256-379 | a tag line moves forward and never lowers a counter |
| Scanner.ScanFrom | src/application/processor.cpp:242-416 | the line loop over a chunk never lowers a counter |
| Scanner.ReadEnd | src/application/processor.cpp:144-153 | the reading loop of `readsome` stays within the input |
| Scanner.ChunkEnd | src/application/processor.cpp:133-156 | `readsome` reads at least one byte while any is left |
| Scanner.Chunks | src/application/processor.cpp:187-421 | the outer loop reads at least one chunk |
| Scanner.RejectedBom | src/application/processor.cpp:203-231 | the UTF-32 marks before the UTF-16 ones, UTF-8 not rejected (`BomOrder`); a rejected mark is one error and no output (`BomRejected`) |
| Scanner.Final | src/application/processor.cpp:423-433 | an open block adds one error, a pending `rmn` one warning |
| Scanner.Processed | src/application/processor.cpp:160-439 | the counters of a run are not negative |
| Scanner.InputFile.constructor | src/application/processor.cpp:181-184 | a freshly opened input is read from its first byte, no end-of-file state |
| Scanner.InputFile.Get | src/application/processor.cpp:139 | `get` returns the next byte and moves on, or, at the end or once the end-of-file state is set, sets it and fails |
| Scanner.ReadSome | src/application/processor.cpp:133-156 | `readsome` returns the input from the read position to `ChunkEnd`, and sets the end-of-file state exactly when that chunk is the last |
| Scanner.CopySpaces | src/application/processor.cpp:246-252 | copies the blanks up to `SpacesEnd` |
| Scanner.SkipSpaces | src/application/processor.cpp:268-273 | stops at `SpacesEnd` |
| Scanner.ReadWord | src/application/processor.cpp:278-286 | reads the bytes up to `TokenEnd` |
| Scanner.CopyLine | src/application/processor.cpp:384-390 | copies the bytes up to `LineEnd` |
| Scanner.ApplyKeyword | src/application/processor.cpp:299-366 | the keyword branches have the effect `Apply` gives |
| Scanner.FinishLine | src/application/processor.cpp:384-410 | the end of the line loop is `EndLine` |
| Scanner.ScanLine | src/application/processor.cpp:242-416 | one pass of the line loop is `LineStep` |
| Scanner.ScanDirective | src/application/processor.cpp:256-379 | a tag line is handled as `DirectiveLine` says |
| Scanner.ScanChunk | src/application/processor.cpp:242-416 | the line loop over a chunk writes and ends as `ScanFrom` |
| Scanner.CaterpillarProc | src/application/processor.cpp:160-439 | the counters and the bytes written are those of `Processed`: a rejected mark in the first chunk is one error and nothing written; otherwise every chunk scanned with the state carried over, then the end-of-input checks |
| Scanner.ChunkStep | src/application/processor.cpp:187-195 | each pass of the outer loop consumes the chunk `readsome` reads; the loop ends after the last one |
| ScannerProperties.ReadEndFirst | src/application/processor.cpp:144-153 | the reading loop stops at the first point where at least `min` bytes are read and the last is LF, or at the end |
| ScannerProperties.ChunkShape | src/application/processor.cpp:133-156 | a chunk is the shortest piece of at least `min` bytes ending with LF, or the rest of the input; a chunk that is not the last is of the first kind |
| ScannerProperties.ChunksConcat | src/application/processor.cpp:187-195 | the chunks, one after the other, are exactly the input: nothing is lost or read twice |
| ScannerProperties.ChunksAligned | src/application/processor.cpp:144-147 | every chunk but the last has at least `min` bytes and ends with LF, so no line or tag is cut |
| ScannerProperties.FirstChunkBom | src/application/processor.cpp:198-234 | checking the first chunk for a mark is the same as checking the input |
| ScannerProperties.BomRejected | src/application/processor.cpp:203-231 | an input starting with a UTF-16 or UTF-32 mark gives one error and no output |
| ScannerProperties.BomOrder | src/application/processor.cpp:203-233 | `FF FE 00 00` is taken for UTF-32 LE, not UTF-16 LE; a UTF-8 mark is not rejected |
| ScannerProperties.LineEndAfterSpaces | src/application/processor.cpp:246-252 | skipping blanks does not move the end of the line |
| ScannerProperties.PlainLineCopied | src/application/processor.cpp:246-416 | outside any scope a line without the tag is written byte for byte, LF included, and the state does not change |
| ScannerProperties.BlockDropsLines | src/application/processor.cpp:291-316 | inside an `rm` block every line is dropped, and only `endrm` with no `rmn` pending closes the block |
| ScannerProperties.RmOpensBlock | src/application/processor.cpp:300-303 | `rm` opens a block, drops its line and warns only about text after the keyword |
| ScannerProperties.EndRmClosesBlock | src/application/processor.cpp:304-311 | `endrm` closes an open block and its line is dropped |
| ScannerProperties.EndRmUnexpected | src/application/processor.cpp:312-316 | `endrm` with no open block is one error, and the line is written without tag and keyword |
| ScannerProperties.UnknownKeyword | src/application/processor.cpp:362-366 | an unknown keyword is one error; the line is written without tag and word |
| ScannerProperties.InsRemovesTag | src/application/processor.cpp:354-361 | `ins` removes the tag, the keyword and one byte after it, whatever it is, with no diagnostic |
| ScannerProperties.RmnDigit | src/application/processor.cpp:318-346 | `rmn d` with one digit drops its own line and leaves `d` lines to drop, with no error |
| ScannerProperties.RmnBadArgument | src/application/processor.cpp:339-352 | `rmn` with no argument or an argument that is not one digit is one error and drops nothing |
| ScannerProperties.RmnCountsDown | src/application/processor.cpp:404-410 | while `rmn` lines are pending each line is dropped and counted, a tag line among them only warned about |
| ScannerProperties.ScopedDirectiveIgnored | src/application/processor.cpp:291-295 | a tag line inside a scope is one warning, dropped, and changes no scope |
| ScannerProperties.BlockEnd | src/application/processor.cpp:300-316 | where an open `rm` block ends: after the line that closes it, or at the end of the chunk |
| ScannerProperties.BlockLine | src/application/processor.cpp:291-316 | a line inside an open block writes nothing, adds no error and starts no `rmn` count |
| ScannerProperties.BlockDropped | src/application/processor.cpp:300-410 | every line of an `rm` block, `endrm` included, is dropped: the scan from inside the block writes exactly what the scan from its end writes; no error arises inside it, and a block never closed runs to the end of the chunk |
| ScannerProperties.RmnEnd | src/application/processor.cpp:404-410 | where the lines an `rmn` count covers end: when the count is used up, or at the end of the chunk |
| ScannerProperties.RmnDropped | src/application/processor.cpp:291-410 | every line an `rmn` count covers is dropped: the scan writes exactly what the scan after them writes; they change neither the block state nor the errors, and a count that outlasts the chunk is carried on |
| ScannerProperties.NoTagInPiece | src/application/processor.cpp:256-258 | a piece of an input without the tag has no tag either |
| ScannerProperties.ScanWithoutTag | src/application/processor.cpp:242-416 | a chunk without the tag is written unchanged, with no diagnostic |
| ScannerProperties.ChunksWithoutTag | src/application/processor.cpp:187-421 | an input without the tag is written unchanged whatever the chunk size |
| ScannerProperties.UntaggedInputUnchanged | src/application/processor.cpp:160-439 | an input with no rejected mark and no tag is written unchanged, with no error and no warning |
| Processor.TagBytes | src/application/processor.cpp:167 | the scanner looks for the job's tag followed by one space |
| Processor.Results | src/application/processor.cpp:641-651 | one result per job, each that of `processJob` |
| Processor.Core | src/application/processor.cpp:519-602 | the `try` block and its handlers: a missing input or the same file is one error (`RefusedJob`); an undetectable ending is one warning and LF (`UndetectableTakenAsLf`, `LfInputScanned`); the output is written exactly when there is no error (`WrittenIffNoError`); the counters are not negative (`CoreCounts`) |
| Processor.Werror | src/application/processor.cpp:605-609 | one more error when warnings are errors and there are warnings (`WerrorAddsOneError`, `WerrorLeavesNoQuietWarning`) |
| Processor.JobOutcome | src/application/processor.cpp:490-612 | `processJob`: `Core`, then the `Werror` rule; an untagged input comes out unchanged in each of its line endings (`UntaggedLfCopied`, `UntaggedCrlfCopied`, `UntaggedCrCopied`) |
| Processor.ProcessJob | src/application/processor.cpp:490-612 | `processJob` returns and leaves the output as `JobOutcome` says |
| Processor.ProcessJobCore | src/application/processor.cpp:519-602 | the `try` block and its handlers end as `Core` says: missing input or the same file one error; undetectable line ending one warning and LF; LF inputs scanned, CR and CRLF converted around the scan; output removed on errors |
| Processor.ProcessLf | src/application/processor.cpp:544 | an LF input is scanned as it is, the output removed on errors |
| Processor.ProcessConverted | src/application/processor.cpp:545-581 | a CR or CRLF input is converted to LF, scanned, converted back; a failed first conversion is one error, a failed second one a warning |
| Processor.ProcessJobs | src/application/processor.cpp:614-654 | `processJobs` returns the sum of the jobs' results, and every job's output is that of `processJob` |
| ProcessorProperties.CoreCounts | src/application/processor.cpp:490-612 | the counters of a job are never negative |
| ProcessorProperties.WrittenIffNoError | src/application/processor.cpp:581 | before the `Werror` rule the output is written exactly when there is no error, otherwise removed or never created |
| ProcessorProperties.WerrorAddsOneError | src/application/processor.cpp:605-609 | `-Werror` adds exactly one error to a job with warnings and changes nothing else, not even the output |
| ProcessorProperties.WerrorLeavesNoQuietWarning | src/application/processor.cpp:605-609 | with `-Werror`, a job without errors has no warnings |
| ProcessorProperties.RefusedJob | src/application/processor.cpp:521-528 | a missing input, or an output that is the input, is one error and leaves the output alone |
| ProcessorProperties.UndetectableTakenAsLf | src/application/processor.cpp:535-544 | an undetectable line ending is one warning and the input is scanned as LF |
| ProcessorProperties.RestoreNeverFails | src/application/processor.cpp:556-569 | for a CR or CRLF input the first conversion fails only on a read error, and the conversion back never does |
| ProcessorProperties.LfInputScanned | src/application/processor.cpp:544 | an LF input is scanned byte for byte |
| ProcessorProperties.UntaggedLfCopied | src/application/processor.cpp:535-581 | an LF input without a rejected mark and without the tag is copied unchanged, with no diagnostic |
| ProcessorProperties.UntaggedCrlfCopied | src/application/processor.cpp:545-578 | a CRLF input whose breaks are all CR LF and whose LF form has no mark and no tag is written back unchanged |
| ProcessorProperties.UntaggedCrCopied | src/application/processor.cpp:545-578 | a CR input without LF bytes, and with no mark and no tag, is written back unchanged |
| ProcessorProperties.NoErrorIffEveryJobClean | src/application/processor.cpp:638-653 | the run has no error exactly when no job has one |
| ProcessorProperties.SumErrZero | src/middleware/util.cpp:21-61 | a sum of error counts that are not negative is zero exactly when each is |

## Left out

- Console output: messages, positions (`ProcPos` line and column), colours (cliTextFormat) and the help and version texts are not modelled. Only the counts they go with are.
- src/main.cpp is not part of this model. That includes the choice between command-line and job-file mode and the exit code.
- The copy modes (`--copy`, `--copy-ow`), suppression of warnings by ID, and include handling are not modelled. The code does not implement them either.
- File-system queries (`fs::exists`, `fs::equivalent`, whether a file opens) are fields of `Env`. `create_directories` is taken to succeed, and the output is taken to be writable.
- `rmOut` is modelled by its effect: the output is gone, and each removal that fails is one warning (`Env.rmFailures`). Which removal fails, and the removal of the created directory, are not modelled separately.
- The temporary directory `.potorooTemp` of the CR/CRLF path is not modelled. The conversions go straight from value to value.
- The exception paths of `fs::path` construction, `filename()`, `extension()` and `lexically_normal` (invalid file names) are not modelled. Paths are strings with '/' as the only separator. A leading `//` is treated as a plain root, as on POSIX systems that give it no special meaning.
- `readJobFile`'s warning when closing the file fails is not modelled. Closing a file is taken to succeed.
- Jobs.ParseFile: job files are read with the corrected, in-bounds extraction (`past = None`), not with the code as written, which reads one byte past the buffer (see "## Findings").
- Jobs.ReadJobFile: a failing `read` of a job file that exists, which the code reports as -1, is not modelled. A file that exists is read in full.
- Scanner.CaterpillarProc: a read failure inside `readsome` ends the chunk exactly as the end of the file does, because `readsome` swallows the exception. So the scanner is modelled over the bytes alone.
- Scanner.CaterpillarProc: nothing is proved about how the result depends on the chunk size. With a small `min`, an `ins` directive whose skipped byte is a chunk's final LF joins lines differently. The proved statements are per line and per chunk, plus the case of inputs without a tag.
- Processor.PbSizeMin: a debug build uses 200 instead of 100 KiB. The model takes the chunk size as a parameter.
- Processor.ProcessJobCore: an input that exists but cannot be opened is modelled as the code runs. Detection reports an error, which is one warning, and then opening the input for the scanner throws, which is one error, before the output is created.
- Util.Stoi: only an optional sign followed by digits is read. Leading blanks and trailing text, which `std::stoi` accepts, are rejected. An out-of-range value gives `None`, where the code throws and `wSupStrListToVector` returns 1.
- Util.Result: the error and warning counts are unbounded integers. The C++ counters are 32-bit `int`, and an overflow past 2^31-1 is not modelled.
- Scanner.AsBytes: a character of a tag is taken modulo 256, standing for C++ `char`.
- Args.FlagWSup: the text of `argStr_wSup` is not declared in the headers available. The model uses a stand-in string that is distinct from the other flags.
- Args.WSupStrListToVector: the reference parameter `std::vector<int>&` is modelled as a value passed in and returned.

## Findings

| source | as written | input that shows it | evidently intended | confidence | as-written member | corrected member |
|---|---|---|---|---|---|---|
| src/application/job.cpp:100-148 | the CR LF tests `*(p + 1) == 0x0A` (lines 110, 126, 142) run before the bound check `p < end - 1`, so at the last byte they read the byte after the job file's buffer | a job file `#a`, LF, four spaces, CR: the result is no record when the byte after the buffer is LF, and an empty record on line 2 otherwise | the CR LF test only when a next byte exists, so that the records depend on the file alone | not executed | Jobs.ExtractReadsPastBuffer | Jobs.ExtractInBounds |

`Jobs.Extract` takes the byte after the buffer as a parameter. `Some(b)` models the code as written, and `None` models the corrected bounds check. `Jobs.ParseFile` reads job files with `None`.
