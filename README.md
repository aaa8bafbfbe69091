# screenlamp tools: a Dafny model

screenlamp is a toolkit of small command-line Python programs. Chained
together, they make a ligand-based virtual screening pipeline. Each tool
reads molecules from multi-MOL2 files or rows from a delimited table,
filters, relabels or pairs them, and writes MOL2 files, ID files or
tab-separated tables. This project models the sequential transformations
inside those tools and proves what they promise.

It covers fifteen tools:

- the ID-file tools (`id_to_mol2`, `merge_id_files`, `mol2_to_id`);
- the molecule counter (`count_mol2`) and the conformer relabeller (`enumerate_conformers`);
- the selection tools over data tables (`datatable_to_id`) and over atom tables (`funcgroup_to_id`, `funcgroup_presence_to_id`, `funcgroup_distance_to_id`);
- the nearest-atom matcher (`funcgroup_matching`) and the two table filters built on its output (`funcgroup_selection`, `funcgroup_matching_selection`);
- the ROCS report pairer (`sort_rocs_mol2`) and the Shape-it command builder (`overlay_molecules_shapeit`);
- the help-text-to-Markdown converter of the documentation (`argparse_to_md`).

Modelling choices:

- **Records.** A molecule record is `Mol2.Record(id, lines)`: what biopandas'
  `split_multimol2` yields. A MOL2 file is the given sequence of its records.
- **Atom tables.** An atom table is a sequence of `Tables.Atom` with integer
  coordinates. Distances are compared squared against squared bounds.
- **Selections.** A selection is two things. First, its text, which the
  tools rewrite; the rewriting is modelled literally in `SelectionText`.
  Second, the condition `pd.eval` evaluates, which is given as a parsed
  `Tables.Pred` (a comparison of a column with a literal, `&`, `|`).
- **Mutable dictionaries and output files.** These become maps and strings.
  Loops that build them become methods with invariants, proved against
  specification functions.
- **Raised exceptions.** These become `Wrappers.Result` failures.
- **Environment.** The file system listing, `cpu_count()` and the existence
  of files are parameters.

The modules follow the source:

- `Text` holds the Python `str` operations.
- `Mol2` holds records and `get_mol2_files`.
- `IdFile` holds ID-file reading and writing.
- `Tables` holds conditions and atoms.
- `SelectionText` holds the selection rewriters.
- `NameLists` holds the suffix split shared by `get_dbase_query_pairs` and `get_tsv_pairs`.
- Every tool has a module of its own.

## Model

| member | source | states |
|---|---|---|
| Mol2.Ids | tools/mol2_to_id.py:67-68 | the k-th id is the id of the k-th record, one per record |
| Mol2.Basename | tools/id_to_mol2.py:81 | `os.path.basename` is a suffix of the path and holds no '/' |
| Mol2.BasenameJoin | tools/id_to_mol2.py:81 | joining a directory with a bare file name and taking the base name gives that name back |
| Mol2.BasenameSuffix | tools/id_to_mol2.py:81 | after a '/' (or at the start) a '/'-free tail is the base name |
| Mol2.JoinPathAppend | tools/overlay_molecules_shapeit.py:106 | appending to the file name appends to the joined path |
| Mol2.Mol2Names | tools/mol2_to_id.py:46-47 | the kept directory entries are no more than the listing |
| Mol2.Mol2NamesMember | tools/mol2_to_id.py:47 | an entry is kept iff it is listed and ends in '.mol2' or 'mol2.gz' (the second without a dot) |
| Mol2.MolNamesSnoc | tools/mol2_to_id.py:46-49 | one more listed entry is appended exactly when it has a MOL2 suffix |
| Mol2.JoinAll | tools/mol2_to_id.py:48 | path k is the directory joined with name k |
| Mol2.JoinAllAppend | tools/mol2_to_id.py:46-49 | joining a concatenated listing concatenates the joined paths |
| Mol2.GetMol2Files | tools/mol2_to_id.py:41-55 | a directory gives its MOL2 entries joined to it, in listing order; another path is returned alone iff it is a file with a MOL2 suffix, else nothing |
| Mol2.RecordsTextAppend | tools/id_to_mol2.py:97-100 | the text of two record sequences is the concatenation of their texts |
| IdFile.IdLines | tools/mol2_to_id.py:68 | one line per id, line k being id k and a newline |
| IdFile.IdLinesAppend | tools/merge_id_files.py:35 | the lines of two id lists are concatenated |
| IdFile.IdTextSnoc | tools/merge_id_files.py:35 | writing one more id appends exactly the id and one '\n' |
| IdFile.ReadIdFile | tools/id_to_mol2.py:66-69 | every line not starting with '#' contributes its stripped text |
| IdFile.ReadIdFileMember | tools/id_to_mol2.py:68 | an id is read iff some line that does not start with '#' strips to it |
| IdFile.IndentedCommentKept | tools/id_to_mol2.py:68 | an indented '#' line is read, stripped, because the test is on the raw line |
| IdFile.StripIndented | tools/id_to_mol2.py:68 | an indented word line strips to the word and does not start with '#' |
| IdFile.CommentDropped | tools/id_to_mol2.py:68 | a line starting with '#' contributes nothing |
| IdFile.BlankLineRead | tools/id_to_mol2.py:68 | a blank line contributes the empty id |
| IdFile.ReadsBackAs | tools/id_to_mol2.py:68 | one written line `w + '\n'` reads back as w |
| IdFile.ReadBackIdLines | tools/id_to_mol2.py:66-69 | reading a written ID file of single-word, non-'#' ids gives exactly the set of written ids |
| IdFile.ReadLinesAs | tools/id_to_mol2.py:66-69 | lines that are no comments and strip to given ids read as exactly those ids |
| IdFile.SplitIdText | tools/mol2_to_id.py:67-68 | splitting a written ID file on '\n' gives the ids in order, then the empty tail |
| IdFile.NonEmpty | tools/funcgroup_presence_to_id.py:128-129 | the written results are no more than the results |
| IdFile.NonEmptyMember | tools/funcgroup_presence_to_id.py:128-129 | a result is written iff it is non-empty |
| IdFile.NonEmptyAppend | tools/funcgroup_presence_to_id.py:123-130 | filtering two chunks is filtering each, in order |
| IdFile.WriteNonEmpty | tools/funcgroup_presence_to_id.py:128-129 | the chunk writer emits `id + '\n'` for exactly the non-empty results, in order |
| IdFile.FlattenSnoc | tools/funcgroup_presence_to_id.py:110-130 | the results of one more file follow those of the files before |
| IdFile.FlattenMember | tools/funcgroup_presence_to_id.py:110-130 | a result is among all files' results iff it is among one file's |
| IdFile.WrittenStep | tools/funcgroup_presence_to_id.py:110-130 | writing file i appends its own id lines to the text of the files before it |
| IdToMol2.Str2Bool | tools/id_to_mol2.py:41-47 | true exactly for yes/true/t/y/1, false exactly for no/false/f/n/0 (after lower-casing), an error for anything else |
| IdToMol2.LowerIdempotent | tools/id_to_mol2.py:42 | lower-casing twice is lower-casing once |
| IdToMol2.Str2BoolCaseInsensitive | tools/id_to_mol2.py:42-44 | a word and its lower-case form convert alike |
| IdToMol2.Str2BoolWordsDisjoint | tools/id_to_mol2.py:42-44 | no word is both a true and a false word |
| IdToMol2.Selected | tools/id_to_mol2.py:94-115 | a filtered file is no longer than its input |
| IdToMol2.SelectedSnoc | tools/id_to_mol2.py:97-100 | one more record is appended exactly when its id passes the mode's test |
| IdToMol2.SelectedMember | tools/id_to_mol2.py:94-115 | a record is written iff it is an input record whose id is listed (include) or not listed (exclude) |
| IdToMol2.SelectedSubsequence | tools/id_to_mol2.py:97-115 | the output is a subsequence of the input records, order and text kept |
| IdToMol2.SelectedPartition | tools/id_to_mol2.py:94-115 | for one set, the include and the exclude outputs together hold every input record exactly once |
| IdToMol2.SelectedIdempotent | tools/id_to_mol2.py:94-115 | filtering an output again with the same set and mode changes nothing |
| IdToMol2.SelectedAllListed | tools/id_to_mol2.py:97-100 | include mode with every record id listed reproduces the whole file |
| IdToMol2.FilterRecords | tools/id_to_mol2.py:94-115 | the record loop writes `''.join(lines)` of exactly the kept records, in order |
| IdToMol2.Outputs | tools/id_to_mol2.py:72-111 | one output file per input file |
| IdToMol2.FilterAndWrite | tools/id_to_mol2.py:72-122 | the output files in input order, each at output_dir joined with the input's base name and holding its kept records; with verbose set, a first file without records raises UnboundLocalError (`idx` unbound) after its empty output is created, and nothing after it is written |
| IdToMol2.OutputKeepsName | tools/id_to_mol2.py:81 | each output keeps its input's file name |
| MergeIdFiles.OfferMember | tools/merge_id_files.py:33-34 | a line offers x iff it strips to x and the stripped text does not start with '#' |
| MergeIdFiles.CandidatesMember | tools/merge_id_files.py:31-42 | an id is offered by a file iff some line of it offers it |
| MergeIdFiles.DedupeElems | tools/merge_id_files.py:34-36 | the written ids are exactly the offered ids not already in the cache |
| MergeIdFiles.DedupeNoRepeats | tools/merge_id_files.py:34-36 | no id is written twice |
| MergeIdFiles.DedupeAppend | tools/merge_id_files.py:31-42 | first-occurrence order: the first list's new ids come before the ids only the second list adds |
| MergeIdFiles.CandidatesAt | tools/merge_id_files.py:32-34 | the ids offered from line i on are line i's offer, then the rest |
| MergeIdFiles.OfferShort | tools/merge_id_files.py:33-34 | a line offers at most one id |
| MergeIdFiles.DedupeStep | tools/merge_id_files.py:34-36 | one offered line is written iff it is not cached, and then cached |
| MergeIdFiles.AppendStep | tools/merge_id_files.py:32-36 | one loop step extends the written ids and the cache as the dedupe specification says |
| MergeIdFiles.ElemsSnoc | tools/merge_id_files.py:36 | adding a written id to the cache is adding it to the set of written ids |
| MergeIdFiles.AppendNewIds | tools/merge_id_files.py:31-42 | one file's loop appends its new, non-comment, stripped ids and keeps `cache` equal to the set of written ids and the text equal to their lines |
| MergeIdFiles.MergeIdFiles | tools/merge_id_files.py:27-42 | the output is the merge specification, each id written as `'%s\n'` |
| MergeIdFiles.MergedInTwoPasses | tools/merge_id_files.py:29-42 | the shared-cache pass equals the first file's dedupe followed by the second file's ids not in the first |
| MergeIdFiles.MergedElems | tools/merge_id_files.py:31-42 | every offered id of either file is written, and nothing else |
| MergeIdFiles.MergedNoRepeats | tools/merge_id_files.py:34-36 | no line is written twice |
| MergeIdFiles.MergedNoComment | tools/merge_id_files.py:34 | no written id starts with '#': the test is on the stripped line |
| MergeIdFiles.MergeEmptySecond | tools/merge_id_files.py:31-36 | with an empty second file the output is the order-preserving dedupe of the first |
| Mol2ToId.AllIdsLength | tools/mol2_to_id.py:67-68 | one id per record: nothing filtered, duplicates kept |
| Mol2ToId.AllIdsAppend | tools/mol2_to_id.py:60-68 | the ids of a longer file list continue those of its prefix |
| Mol2ToId.WriteIds | tools/mol2_to_id.py:67-68 | one file's loop writes `id + '\n'` per record, in record order |
| Mol2ToId.Mol2ToIdFile | tools/mol2_to_id.py:58-75 | the output lists every record's id, files in list order, records in file order; with verbose set, a first file without records raises UnboundLocalError and leaves the file empty |
| Mol2ToId.Mol2ToIdLines | tools/mol2_to_id.py:67-68 | line k of the output is the id of the k-th record, and there are exactly as many lines as records |
| CountMol2.MolCountPython | tools/count_mol2.py:25-38 | the count is the number of lines beginning with '@<TRIPOS>ATOM' |
| CountMol2.AtomCountBounds | tools/count_mol2.py:33-38 | the count is at most the number of lines, and 0 when no line begins with the marker |
| CountMol2.AtomCountAppend | tools/count_mol2.py:33-38 | the count of concatenated lines is the sum of the counts |
| CountMol2.AtomCountPrefixTest | tools/count_mol2.py:36 | an indented marker is not counted; a longer line starting with the marker is |
| CountMol2.AtomCountBelowShell | tools/count_mol2.py:41-53 | every line the prefix test counts, the `grep` counter counts too |
| CountMol2.CountInDir | tools/count_mol2.py:56-72 | the total is the sum of the per-file counts over entries with a MOL2 suffix |
| CountMol2.DirTotalIgnoresOthers | tools/count_mol2.py:60 | entries without a MOL2 suffix add nothing |
| CountMol2.DirTotalAppend | tools/count_mol2.py:59-72 | listing two groups of entries one after the other adds their totals |
| CountMol2.CountMain | tools/count_mol2.py:75-87 | `os.system == 'Windows'` is never true, so a file and a directory are both counted with the shell counter |
| EnumerateConformers.LabelDigits | tools/enumerate_conformers.py:106 | `'%s_%d'` ends in exactly the counter's digits |
| EnumerateConformers.LabelInjective | tools/enumerate_conformers.py:106 | a label names one (id, counter) pair |
| EnumerateConformers.RunIndexInRun | tools/enumerate_conformers.py:101-104 | inside a run of equal ids the counter goes up by one per record, so a run of k gets 0..k-1 |
| EnumerateConformers.LabelsDistinct | tools/enumerate_conformers.py:100-110 | when each id forms one block, no two records get the same label |
| EnumerateConformers.ReturningIdRestarts | tools/enumerate_conformers.py:101-104 | ids a, b, a restart: the second 'a' gets the same label as the first |
| EnumerateConformers.Renamed | tools/enumerate_conformers.py:106-109 | line 1 becomes `id_cnt + '\n'`, every other line is kept, the id is unchanged |
| EnumerateConformers.FirstFailure | tools/enumerate_conformers.py:84-110 | the index of the first record that raises (a short record, or a first id equal to the initial ''), or the length |
| EnumerateConformers.ReadAndWrite | tools/enumerate_conformers.py:56-117 | the records are written renamed, in order, up to the first one that raises; the call fails iff some record raises or, with verbose set, the file has no record (`i` unbound) |
| EnumerateConformers.FirstFailureAt | tools/enumerate_conformers.py:84-110 | the first failure is the first index that raises |
| EnumerateConformers.CounterStep | tools/enumerate_conformers.py:101-104 | the counter starts at 0, resets on a new id and otherwise goes up by one |
| EnumerateConformers.OutputStep | tools/enumerate_conformers.py:100-110 | each step appends the next renamed record |
| Tables.LexLessIrreflexive | tools/sort_rocs_mol2.py:77 | Python's string ordering is irreflexive |
| Tables.HoldsOnColumns | tools/datatable_to_id.py:37 | a condition only reads its own columns: rows that agree there evaluate alike |
| Tables.Restrict | tools/datatable_to_id.py:33 | `usecols` keeps exactly the requested columns of a row, unchanged |
| Tables.RestrictKeepsHolds | tools/datatable_to_id.py:33-37 | reading only the columns a condition uses does not change its value |
| Tables.SelectAtoms | tools/funcgroup_distance_to_id.py:85-87 | `df[pd.eval(sel)]` is no larger than the table |
| Tables.SelectAtomsMember | tools/funcgroup_distance_to_id.py:85-87 | an atom is selected iff it is in the table and satisfies the condition |
| Tables.SelectAtomsEmpty | tools/funcgroup_presence_to_id.py:82 | the selection is non-empty iff `.any()` holds |
| Tables.SqDist | tools/funcgroup_distance_to_id.py:91 | the squared distance is never negative |
| SelectionText.ContainsLength | tools/funcgroup_to_id.py:45-46 | a contained pattern is no longer than the text |
| SelectionText.ContainsSuffix | tools/funcgroup_to_id.py:45-46 | an occurrence in a suffix is an occurrence in the whole |
| SelectionText.ContainsHead | tools/funcgroup_to_id.py:45-46 | an occurrence of p needs p's first character |
| SelectionText.ExpandEach | tools/datatable_to_id.py:53 | one piece per character, each '(' expanded |
| SelectionText.InsertFramePerChar | tools/datatable_to_id.py:52-53 | every '(' becomes '(' + df_name + '.' and every other character is kept |
| SelectionText.InsertFrameRoundTrip | tools/datatable_to_id.py:52-53 | removing the inserted names restores the input: nothing else changes |
| SelectionText.InsertFrameLength | tools/datatable_to_id.py:53 | the length grows by count('(') × (len(df_name) + 1) |
| SelectionText.DropParens | tools/datatable_to_id.py:57 | the result holds no '(' and equals a '('-free input |
| SelectionText.DropParensIsReplace | tools/datatable_to_id.py:57 | `replace('(', '')` is this character filter |
| SelectionText.ParenTokens | tools/datatable_to_id.py:57 | the columns are no more than the words |
| SelectionText.ParenTokensMember | tools/datatable_to_id.py:57 | a column is a word holding '(' with its '(' removed |
| SelectionText.ColumnsFromSelectionMember | tools/datatable_to_id.py:56-57 | a name is a selected column iff it is a whitespace token holding '(' with every '(' removed |
| SelectionText.ColumnsHaveNoParen | tools/datatable_to_id.py:57 | no column name keeps a '(' |
| SelectionText.ColumnsWithoutParen | tools/datatable_to_id.py:57 | a selection without '(' (operators, literals like '7)' only) names no column |
| SelectionText.ParenTokensNone | tools/datatable_to_id.py:57 | words without '(' give no column |
| SelectionText.WordsAvoidChar | tools/datatable_to_id.py:57 | a character absent from s is absent from its words |
| SelectionText.RewriteAbsent | tools/funcgroup_to_id.py:45-47 | a string containing none of the tokens is returned unchanged |
| SelectionText.RewriteWithoutParen | tools/funcgroup_to_id.py:42-47 | a selection with no '(' is never rewritten, whatever column names it mentions |
| SelectionText.AbsentNowhere | tools/funcgroup_to_id.py:46 | a pattern occurring at no position is not contained |
| SelectionText.RewriteNeedsAdjacentParen | tools/funcgroup_to_id.py:43-46 | when no '(' is directly followed by a token name's first letter, nothing changes |
| SelectionText.SpacedTokenKept | tools/funcgroup_to_id.py:43-46 | '( atom_type' (a space after the '(') is passed on unchanged |
| SelectionText.HeadAgree | tools/funcgroup_to_id.py:46 | replacing a '('-led pattern by a '('-led text leaves a '('-free start alone |
| SelectionText.ReplaceKeepsClear | tools/funcgroup_to_id.py:46 | one replacement removes its token and creates no occurrence of another |
| SelectionText.RewriteClears | tools/funcgroup_to_id.py:45-46 | after the fold no rewritten or absent token is left |
| SelectionText.DefaultFrameFits | tools/funcgroup_to_id.py:42 | the default frame 'pdmol.df' cannot form a token |
| SelectionText.RewriteIdempotent | tools/funcgroup_to_id.py:42-47 | with the default frame no '(' + column token is left, so rewriting twice equals rewriting once |
| SelectionText.StrippedGroups | tools/funcgroup_presence_to_id.py:65 | one group more than there are '-->' separators, none with white space at either end |
| SelectionText.ParseGroups | tools/funcgroup_presence_to_id.py:61-72 | one entry per '-->' piece, each stripped and with the six column tokens rewritten |
| SelectionText.ParsedGroupsSettled | tools/funcgroup_presence_to_id.py:68-71 | with a fitting frame every parsed group is already fully rewritten |
| SelectionText.QualifyAbsent | tools/funcgroup_selection.py:26-28 | a selection mentioning no column is not qualified |
| SelectionText.QualifyColumns | tools/funcgroup_selection.py:26-28 | the `c in s` guard changes nothing: every column is replaced in column order |
| SelectionText.ParseTableSelection | tools/funcgroup_matching_selection.py:54-61 | qualify, normalise ' --> ' to '-->', split, and wrap each part as df_name[part]: one entry per '-->' plus one |
| SelectionText.UnwrapAll | tools/funcgroup_selection.py:30 | one inside per wrapped group |
| SelectionText.TableGroupsRoundTrip | tools/funcgroup_selection.py:29-30 | unwrapping the groups and joining with '-->' gives back the qualified, normalised selection |
| DatatableToId.UsedColumns | tools/datatable_to_id.py:26 | the id column first, then exactly the selection's columns |
| DatatableToId.MaskedIds | tools/datatable_to_id.py:36-40 | no more ids than rows |
| DatatableToId.MaskedIdsAppend | tools/datatable_to_id.py:36-40 | the ids of two row blocks are the ids of each, in order |
| DatatableToId.HaveIdAppend | tools/datatable_to_id.py:38 | two blocks with the id column make one |
| DatatableToId.MaskedIdsMember | tools/datatable_to_id.py:37-38 | a cell is written iff a row carrying it as its id satisfies the condition |
| DatatableToId.MaskedIdsLoadedColumns | tools/datatable_to_id.py:33-37 | when the condition reads only loaded columns, masking on them is masking on the whole row |
| DatatableToId.WriteChunk | tools/datatable_to_id.py:37-40 | one chunk writes the id cells of its accepted rows, in row order |
| DatatableToId.ReadAndWrite | tools/datatable_to_id.py:23-40 | fails with the `usecols` error iff a used column is missing; otherwise the ids of all accepted rows, chunks and rows in order |
| DatatableToId.HeaderHaveId | tools/datatable_to_id.py:33 | a rectangular table whose header has the id column has it in every row |
| DatatableToId.WriteChunks | tools/datatable_to_id.py:33-40 | the chunk loop of 100000 rows writes the same ids as one pass |
| DatatableToId.TableSplit | tools/datatable_to_id.py:36 | chunking does not change the output |
| FuncgroupToId.ReadAndWriteAsWritten | tools/funcgroup_to_id.py:50-74 | as written: nothing is written, and the program prints the selection and exits iff some file has a record |
| FuncgroupToId.Matches | tools/funcgroup_to_id.py:61-69 | no more ids than records |
| FuncgroupToId.MatchesSnoc | tools/funcgroup_to_id.py:61-69 | one more record adds its id iff the condition picks one of its atoms |
| FuncgroupToId.MatchesMember | tools/funcgroup_to_id.py:67-68 | an id is selected iff a record with that id has an atom the condition picks |
| FuncgroupToId.ProcessFile | tools/funcgroup_to_id.py:56-69 | one file writes its selected ids unseparated and counts them |
| FuncgroupToId.PerFile | tools/funcgroup_to_id.py:55 | one id list per file |
| FuncgroupToId.WrittenStep | tools/funcgroup_to_id.py:55-69 | file i's ids follow those of the files before |
| FuncgroupToId.ReadAndWrite | tools/funcgroup_to_id.py:50-74 | without the exit: the selected ids of all files in order, with per-file counts |
| FuncgroupToId.ConcatNonEmpty | tools/funcgroup_to_id.py:68 | a non-empty part makes the output non-empty |
| FuncgroupToId.SelectedRecordIsWritten | tools/funcgroup_to_id.py:64-68 | a selected record with a non-empty id is written by the loop without the exit |
| FuncgroupPresenceToId.DataProcessor | tools/funcgroup_presence_to_id.py:75-86 | the id iff every group selects an atom, else '' (stopping at the first empty group) |
| FuncgroupPresenceToId.AllPresentAppend | tools/funcgroup_presence_to_id.py:81-85 | the test is the conjunction over the groups |
| FuncgroupPresenceToId.PresenceOrderFree | tools/funcgroup_presence_to_id.py:81-85 | group order and repetition do not change the result |
| FuncgroupPresenceToId.EmptyTableAbsent | tools/funcgroup_presence_to_id.py:82 | an empty atom table yields '' whenever there is a group |
| FuncgroupPresenceToId.Results | tools/funcgroup_presence_to_id.py:123-126 | one result per record |
| FuncgroupPresenceToId.ResultsAt | tools/funcgroup_presence_to_id.py:123-126 | result k belongs to record k |
| FuncgroupPresenceToId.ResultsSnoc | tools/funcgroup_presence_to_id.py:123-126 | one more record appends its result |
| FuncgroupPresenceToId.PerFile | tools/funcgroup_presence_to_id.py:110 | one result list per file |
| FuncgroupPresenceToId.ProcessFile | tools/funcgroup_presence_to_id.py:116-130 | one file writes its non-empty results one per line and counts every record |
| FuncgroupPresenceToId.ReadAndWrite | tools/funcgroup_presence_to_id.py:102-135 | the ID file lists the matching ids of all files in order, and `cnt` of each file is its record count |
| FuncgroupPresenceToId.ResultsMember | tools/funcgroup_presence_to_id.py:80-86 | a non-empty id is a result iff a record with it has every group present |
| FuncgroupPresenceToId.WrittenMatches | tools/funcgroup_presence_to_id.py:102-130 | a non-empty id is written iff some input molecule with that id has every group present |
| FuncgroupPresenceToId.GetNumCpus | tools/funcgroup_presence_to_id.py:138-143 | None or 0 gives cpu_count(), negative n gives cpu_count() - n (more CPUs), positive n is kept |
| FuncgroupDistanceToId.ParseInts | tools/funcgroup_distance_to_id.py:45 | a parsed list has one number per piece |
| FuncgroupDistanceToId.DigitsNoDash | tools/funcgroup_distance_to_id.py:45 | printed digits hold no '-' |
| FuncgroupDistanceToId.ParseDistanceRoundTrip | tools/funcgroup_distance_to_id.py:44-46 | "lo-hi" parses back as [lo, hi], in either order of the bounds |
| FuncgroupDistanceToId.ParseBounds | tools/funcgroup_distance_to_id.py:45 | two printed numbers parse back to themselves |
| FuncgroupDistanceToId.ParseIntsCons | tools/funcgroup_distance_to_id.py:45 | good pieces parse piece by piece |
| FuncgroupDistanceToId.SplitBounds | tools/funcgroup_distance_to_id.py:45 | "lo-hi" splits on '-' into the two numerals |
| FuncgroupDistanceToId.CheckArguments | tools/funcgroup_distance_to_id.py:262-273 | accepted iff the distance parses into exactly two numbers and there are exactly two groups; lo ≤ hi is not checked |
| FuncgroupDistanceToId.CheckAcceptsBounds | tools/funcgroup_distance_to_id.py:262-266 | any "lo-hi" passes with two groups, even lo > hi |
| FuncgroupDistanceToId.CheckAcceptsPieces | tools/funcgroup_distance_to_id.py:44-46 | two '-'-free pieces that `int()` reads, joined by '-', pass as those two bounds |
| FuncgroupDistanceToId.CheckAcceptsUnderscored | tools/funcgroup_distance_to_id.py:44-46 | an underscore between digits is read by `int()`, so "1_0-20" passes as the bounds 10 and 20 |
| FuncgroupDistanceToId.CheckRejectsOneGroup | tools/funcgroup_distance_to_id.py:268-273 | a selection without '-->' is rejected |
| FuncgroupDistanceToId.DataProcessor | tools/funcgroup_distance_to_id.py:80-99 | the id iff some group-0 atom has some group-1 atom at distance ≥ lo and some (possibly other) at distance ≤ hi, else '' |
| FuncgroupDistanceToId.PairWithinMatches | tools/funcgroup_distance_to_id.py:93-94 | one pair within [lo, hi] is enough |
| FuncgroupDistanceToId.SingleReference | tools/funcgroup_distance_to_id.py:93-94 | with one group-1 atom the rule is "some group-0 atom lies within [lo, hi] of it" |
| FuncgroupDistanceToId.NearAndFarMatch | tools/funcgroup_distance_to_id.py:93-94 | a near and a far group-1 atom match although no distance lies in [lo, hi] |
| FuncgroupDistanceToId.EmptyGroupNoMatch | tools/funcgroup_distance_to_id.py:85-99 | an empty group 0 or group 1 never matches |
| FuncgroupDistanceToId.MatchMonotone | tools/funcgroup_distance_to_id.py:93-94 | lowering lo or raising hi never turns a match into a non-match |
| FuncgroupDistanceToId.MulMonotone | tools/funcgroup_distance_to_id.py:93-94 | squaring keeps the order of the bounds |
| FuncgroupDistanceToId.Results | tools/funcgroup_distance_to_id.py:145-147 | one result per record |
| FuncgroupDistanceToId.ResultsSnoc | tools/funcgroup_distance_to_id.py:145-147 | one more record appends its result |
| FuncgroupDistanceToId.ResultsAt | tools/funcgroup_distance_to_id.py:145-147 | result k belongs to record k |
| FuncgroupDistanceToId.PerFile | tools/funcgroup_distance_to_id.py:132 | one result list per file |
| FuncgroupDistanceToId.ProcessFile | tools/funcgroup_distance_to_id.py:138-149 | one file writes its non-empty results one per line and counts every record |
| FuncgroupDistanceToId.ReadAndWrite | tools/funcgroup_distance_to_id.py:124-154 | the ID file lists the matching ids of all files in order |
| FuncgroupDistanceToId.ResultsMember | tools/funcgroup_distance_to_id.py:80-99 | a non-empty id is a result iff a record with it matches |
| FuncgroupDistanceToId.WrittenMatches | tools/funcgroup_distance_to_id.py:124-148 | a non-empty id is written iff some input molecule with that id matches |
| NameLists.Kind | tools/funcgroup_matching.py:59-65 | a list of one kind is no longer than the listing |
| NameLists.KindSnoc | tools/funcgroup_matching.py:61-65 | one more name is appended to the list of its kind |
| NameLists.KindMember | tools/funcgroup_matching.py:62-65 | a name is in a list iff it is listed and of that kind (the `elif` gives the first kind precedence) |
| NameLists.KindPartition | tools/funcgroup_selection.py:13-17 | no name lands in both lists; together they are no longer than the listing |
| NameLists.SplitByKind | tools/funcgroup_selection.py:12-17 | the loop builds both lists in listing order |
| FuncgroupMatching.GetDbaseQueryPairsAsWritten | tools/funcgroup_matching.py:59-69 | as written: the two lists, never an error |
| FuncgroupMatching.UnpairedQueryAccepted | tools/funcgroup_matching.py:66 | a lone query file passes although the lists differ in length |
| FuncgroupMatching.GetDbaseQueryPairs | tools/funcgroup_matching.py:59-69 | with the intended check: query and dbase names in order, an error iff the counts differ |
| FuncgroupMatching.ArgMin | tools/funcgroup_matching.py:76 | the first database atom at minimum distance |
| FuncgroupMatching.SentinelIffNoneWithin | tools/funcgroup_matching.py:78-81 | the sentinel iff no database atom lies within the threshold |
| FuncgroupMatching.MatchIsFirstNearest | tools/funcgroup_matching.py:75-81 | a match is within the threshold, at minimum distance, and the first such atom |
| FuncgroupMatching.AtThresholdMatches | tools/funcgroup_matching.py:78 | a distance equal to the threshold matches |
| FuncgroupMatching.ThresholdMonotone | tools/funcgroup_matching.py:78-81 | raising the threshold keeps every match, with the same atom |
| FuncgroupMatching.MulMonotoneReal | tools/funcgroup_matching.py:78 | squaring keeps the order of non-negative thresholds |
| FuncgroupMatching.GetAtomMatches | tools/funcgroup_matching.py:72-84 | one (type, charge) entry per query atom in query order, the nearest atom's or the sentinel; fails iff atoms are matched against an empty table |
| FuncgroupMatching.PairRow | tools/funcgroup_matching.py:87-99 | the row's dbase id is the first element's, the query id the second's, one entry per query atom |
| FuncgroupMatching.DataProcessor | tools/funcgroup_matching.py:87-99 | computes the pair's row |
| FuncgroupMatching.CollectRows | tools/funcgroup_matching.py:139-150 | one row per zipped pair, min(#dbase, #query) rows |
| FuncgroupMatching.AtomNames | tools/funcgroup_matching.py:183 | the header names are the query atoms' names, in order |
| FuncgroupMatching.AtomTypeLineFields | tools/funcgroup_matching.py:193-195 | a row line splits back on tabs into dbase id, query id and the atom types |
| FuncgroupMatching.Lines | tools/funcgroup_matching.py:186-196 | one line per row, in row order |
| FuncgroupMatching.WriteAtomTypes | tools/funcgroup_matching.py:180-196 | the atom-type table is the header, then one line per row |
| FuncgroupMatching.ReadAndWrite | tools/funcgroup_matching.py:119-196 | the rows of the zipped pairs and the atom-type table with the query file's atom names |
| FuncgroupSelection.GetTsvPairs | tools/funcgroup_matching_selection.py:41-51 | atom-type and charge tables in listing order, others dropped; unequal counts raise |
| FuncgroupSelection.Numbered | tools/funcgroup_selection.py:56-59 | row k of a table read carries label k |
| FuncgroupSelection.Filter | tools/funcgroup_selection.py:68 | a filtered frame is no larger |
| FuncgroupSelection.FilterMember | tools/funcgroup_selection.py:68 | a row survives iff it satisfies the condition, label kept |
| FuncgroupSelection.ApplyGroupsMember | tools/funcgroup_selection.py:67-68 | a row survives all groups iff it satisfies every group, label unchanged |
| FuncgroupSelection.ApplySelection | tools/funcgroup_matching_selection.py:92-98 | the groups filter one after the other; no groups keep every row |
| FuncgroupSelection.SurvivorLabels | tools/funcgroup_selection.py:62-76 | a label survives iff it labels a row satisfying every group |
| FuncgroupSelection.SortedBetween | tools/funcgroup_selection.py:80 | the members in range, strictly increasing |
| FuncgroupSelection.SelectionIndicesMember | tools/funcgroup_matching_selection.py:108-110 | an index is selected iff its atom-type row passes every atom group and its charge row every charge group |
| FuncgroupSelection.FindRecord | tools/funcgroup_selection.py:104-120 | record i's text, or 'DID NOT FIND id' when the file has no record i |
| FuncgroupSelection.Entries | tools/funcgroup_matching_selection.py:154-182 | exactly one entry per selected index |
| FuncgroupSelection.WriteRecords | tools/funcgroup_matching_selection.py:154-182 | for each index in order, the query and dbase record at that position or the placeholder |
| FuncgroupSelection.ProcessPair | tools/funcgroup_selection.py:56-123 | filter both tables, intersect and sort the labels, copy the records at those indices |
| FuncgroupSelection.Mol2PathsOfStem | tools/funcgroup_selection.py:86-98 | for `stem_charge.tsv` the paths are `dir/stem_query.mol2` and `dir/stem_dbase.mol2` |
| FuncgroupSelection.SuffixFacts | tools/funcgroup_selection.py:86-90 | the replaced suffixes start with their only '_' and hold no '/' |
| FuncgroupSelection.GzFollowsInput | tools/funcgroup_matching_selection.py:122-150 | an output is compressed iff the plain input is missing and the '.gz' one exists |
| OverlayMoleculesShapeit.IdSet | tools/overlay_molecules_shapeit.py:40-43 | the distinct ids are exactly those of some record |
| OverlayMoleculesShapeit.CheckQueryFails | tools/overlay_molecules_shapeit.py:39-50 | raises iff two records have different ids: zero or one record, or conformers sharing an id, pass |
| OverlayMoleculesShapeit.PrefixOfStem | tools/overlay_molecules_shapeit.py:72 | 'stem.mol2' gives the prefix 'stem' |
| OverlayMoleculesShapeit.PrefixWithoutSuffix | tools/overlay_molecules_shapeit.py:72 | a target without '.mol2' has the empty prefix |
| OverlayMoleculesShapeit.FixedCommand | tools/overlay_molecules_shapeit.py:83-88 | ten fixed elements: executable, query, source, target, prefix + '.rpt', '--noRef' in place |
| OverlayMoleculesShapeit.BuildCommand | tools/overlay_molecules_shapeit.py:83-94 | the fixed ten, then the whitespace tokens of the settings in order (none for empty settings) |
| OverlayMoleculesShapeit.CommandTokens | tools/overlay_molecules_shapeit.py:90-94 | every element after the tenth is a non-empty token without white space |
| OverlayMoleculesShapeit.ScoresFile | tools/overlay_molecules_shapeit.py:72 | partition `dir/stem.mol2` is written to `out/stem.mol2` with scores in `out/stem.rpt` |
| OverlayMoleculesShapeit.Mol2SuffixFacts | tools/overlay_molecules_shapeit.py:106 | '.mol2' holds no '/' and '/' no '.' |
| OverlayMoleculesShapeit.JoinPathNoChar | tools/overlay_molecules_shapeit.py:106 | joining paths without a character gives a path without it |
| SortRocsMol2.LexGeTotal | tools/sort_rocs_mol2.py:73 | any two keys are ordered |
| SortRocsMol2.LexGeTransitive | tools/sort_rocs_mol2.py:73 | the key order is transitive |
| SortRocsMol2.Insert | tools/sort_rocs_mol2.py:73 | inserting adds exactly one row |
| SortRocsMol2.InsertSorted | tools/sort_rocs_mol2.py:73 | inserting into a non-increasing sequence keeps it non-increasing |
| SortRocsMol2.ConsSorted | tools/sort_rocs_mol2.py:73 | a row at least every row of a sorted sequence can go in front |
| SortRocsMol2.SortRows | tools/sort_rocs_mol2.py:72-73 | the sorted report is a permutation of the rows |
| SortRocsMol2.SortRowsSorted | tools/sort_rocs_mol2.py:72-73 | the sorted report is non-increasing by the sortby scores |
| SortRocsMol2.Survivors | tools/sort_rocs_mol2.py:75-78 | the mask keeps no more rows |
| SortRocsMol2.SurvivorsMember | tools/sort_rocs_mol2.py:77-78 | a row survives iff it is in the report and the selection accepts it |
| SortRocsMol2.SurvivorsSorted | tools/sort_rocs_mol2.py:72-78 | masking a sorted report keeps it sorted |
| SortRocsMol2.UsedColumns | tools/sort_rocs_mol2.py:69 | exactly 'Name', 'ShapeQuery' and the sortby columns are read |
| SortRocsMol2.ReportRows | tools/sort_rocs_mol2.py:69-78 | the report holds exactly the accepted rows, non-increasing by score when sortby is given |
| SortRocsMol2.Pairs | tools/sort_rocs_mol2.py:80-81 | one (Name, ShapeQuery) pair per row, in row order |
| SortRocsMol2.QueryNames | tools/sort_rocs_mol2.py:82 | exactly the query cells of the report |
| SortRocsMol2.IsMultiConformer | tools/sort_rocs_mol2.py:86-90 | multi-conformer iff the query file has at least two records |
| SortRocsMol2.MultiConformerNamesDistinct | tools/sort_rocs_mol2.py:108-111 | in multi-conformer mode every position gets its own name `id_k` |
| SortRocsMol2.CodeNamesOfOneId | tools/sort_rocs_mol2.py:92-111 | when every conformer carries one id, the labels are exactly `id_0` to `id_(n-1)` |
| SortRocsMol2.FirstConformerLabelledZero | tools/sort_rocs_mol2.py:92-111 | the first conformer is labelled `id_0`, not `id_1` as the `--id_suffix` help text says |
| SortRocsMol2.DocumentedLastNameFails | tools/sort_rocs_mol2.py:228-237 | a report row naming the last of n conformers `id_n`, as the help text numbers them, makes the pair writing raise |
| SortRocsMol2.DocumentedNamesOfOneId | tools/sort_rocs_mol2.py:228-237 | with the help text's numbering the labels of one id are exactly `id_1` to `id_n` |
| SortRocsMol2.DocumentedNamesDistinct | tools/sort_rocs_mol2.py:228-237 | the help text's labels are pairwise distinct |
| SortRocsMol2.LastWinsKeys | tools/sort_rocs_mol2.py:114-117 | a key is stored iff some step stores it |
| SortRocsMol2.LastWinsValue | tools/sort_rocs_mol2.py:117 | a later store overwrites an earlier one |
| SortRocsMol2.QueryEntries | tools/sort_rocs_mol2.py:108-117 | one step per query record |
| SortRocsMol2.BuildQueryStore | tools/sort_rocs_mol2.py:92-117 | the store after the loop with `cnt` from -1: named records, line 1 replaced under id_suffix, last one wins |
| SortRocsMol2.QueryStoreContents | tools/sort_rocs_mol2.py:107-117 | a name is stored iff the report names it and some record carries it |
| SortRocsMol2.MultiConformerStoresEach | tools/sort_rocs_mol2.py:108-117 | in multi-conformer mode each named conformer is stored with its own text |
| SortRocsMol2.DbaseEntries | tools/sort_rocs_mol2.py:125-129 | a database record is stored under its id unless the id is empty |
| SortRocsMol2.BuildDbaseStore | tools/sort_rocs_mol2.py:124-129 | the temporary directory as a map built by the loop |
| SortRocsMol2.DbaseStoreContents | tools/sort_rocs_mol2.py:125-129 | an id is stored iff it is non-empty and some record carries it |
| SortRocsMol2.DbaseStoreLast | tools/sort_rocs_mol2.py:127-129 | a duplicate id holds the last record's text |
| SortRocsMol2.WritePairs | tools/sort_rocs_mol2.py:137-143 | the pair loop writes query and database text row by row until a missing record raises |
| SortRocsMol2.WrittenFails | tools/sort_rocs_mol2.py:140-142 | the output fails iff some row has a missing record; no row is skipped |
| SortRocsMol2.WrittenFirstMissing | tools/sort_rocs_mol2.py:138-142 | the exception is that of the first row with a missing record, query lookup first |
| SortRocsMol2.QueryTexts | tools/sort_rocs_mol2.py:140 | one query text per row |
| SortRocsMol2.DbaseTexts | tools/sort_rocs_mol2.py:141-143 | one database text per row |
| SortRocsMol2.WrittenAligned | tools/sort_rocs_mol2.py:137-143 | when all records are found the two outputs are row-aligned, with equal counts |
| SortRocsMol2.ReportHasNames | tools/sort_rocs_mol2.py:69-81 | the report rows carry both name columns |
| SortRocsMol2.ReadReport | tools/sort_rocs_mol2.py:69-78 | fails with the `usecols` error iff a used column is missing, otherwise the sorted, masked report |
| SortRocsMol2.PairAndWrite | tools/sort_rocs_mol2.py:80-143 | names and stores the records and writes the pairs |
| SortRocsMol2.ReadAndWrite | tools/sort_rocs_mol2.py:62-143 | the report error, or the stored query and database texts of every report row, in order |
| SortRocsMol2.OutBaseOfStem | tools/sort_rocs_mol2.py:119-122 | 'dir/stem.mol2' gives the base 'output_dir/stem' |
| SortRocsMol2.ParseIdSuffix | tools/sort_rocs_mol2.py:251-257 | false for false/f/no/n, true for true/t/yes/y in any case, an error otherwise |
| SortRocsMol2.ParseIdSuffixAgrees | tools/sort_rocs_mol2.py:251-257 | where `--id_suffix` accepts a word, `str2bool` agrees |
| SortRocsMol2.ParseIdSuffixRejectsDigit | tools/sort_rocs_mol2.py:251-257 | '1' is rejected here but is true for `str2bool` |
| SortRocsMol2.SortColumns | tools/sort_rocs_mol2.py:259 | one stripped column per comma-separated piece |
| SortRocsMol2.CheckSelection | tools/sort_rocs_mol2.py:261-268 | fails iff some space-separated token starts with '(' and its rest is not a substring of `--sortby`; the error names the first such token |
| SortRocsMol2.JoinContainsPiece | tools/sort_rocs_mol2.py:262 | each piece of a joined text occurs in it |
| SortRocsMol2.ListedColumnPasses | tools/sort_rocs_mol2.py:262 | a token naming a sortby piece passes |
| SortRocsMol2.SubstringPasses | tools/sort_rocs_mol2.py:262 | the test is by substring: '(Tanimoto' passes with 'TanimotoCombo' |
| ArgparseToMd.PyNames | docs/argparse_to_md.py:20-22 | no more names than the listing |
| ArgparseToMd.PyNamesSnoc | docs/argparse_to_md.py:20-22 | one more entry is appended iff it is a public script |
| ArgparseToMd.PyNamesMember | docs/argparse_to_md.py:21 | a name is kept iff it ends in '.py' and does not start with '_' |
| ArgparseToMd.GetPyfiles | docs/argparse_to_md.py:18-23 | the kept names joined to the absolute directory, in listing order |
| ArgparseToMd.NonBlank | docs/argparse_to_md.py:44-83 | every non-blank line produces one or two lines |
| ArgparseToMd.ConvertBlank | docs/argparse_to_md.py:41-42 | white-space-only lines produce nothing and keep the flag; others produce one or two lines |
| ArgparseToMd.Facts | docs/argparse_to_md.py:44-52 | the version and help lines start with '-', 'Example:' with 'E' |
| ArgparseToMd.NonBlankTwoLines | docs/argparse_to_md.py:44-60 | two lines come out exactly for the version line, the help line and a '#' line in example mode |
| ArgparseToMd.NonBlankExample | docs/argparse_to_md.py:52-54 | an 'Example:' line emits the heading with the opening fence and sets the flag |
| ArgparseToMd.NonBlankInExample | docs/argparse_to_md.py:56-60 | in example mode a line is copied stripped; a '#' line first closes the fence and clears the flag |
| ArgparseToMd.NonBlankUsage | docs/argparse_to_md.py:65-67 | a usage line becomes the usage heading with the text after its last 'usage:' |
| ArgparseToMd.StrippedTestsNeverFire | docs/argparse_to_md.py:72-83 | the stripped line never starts with a space, so the '  --' test and the re-indent never fire |
| ArgparseToMd.ConvertOption | docs/argparse_to_md.py:75-76 | a raw line starting with '  -' not caught earlier becomes '- `…`  ' |
| ArgparseToMd.RunStep | docs/argparse_to_md.py:36-83 | each line's output follows the previous lines', converted with the flag they leave |
| ArgparseToMd.ConvertLine | docs/argparse_to_md.py:38-83 | the loop body computes the line's output and the new flag |
| ArgparseToMd.NonBlankLine | docs/argparse_to_md.py:44-83 | the branches after the blank test |
| ArgparseToMd.PlainLine | docs/argparse_to_md.py:62-83 | the branches after the example test |
| ArgparseToMd.HelpToMd | docs/argparse_to_md.py:31-88 | the loop over the lines, then a closing fence if still in an example |
| ArgparseToMd.EndsWithFence | docs/argparse_to_md.py:85-86 | a text ending inside an example ends with a closing fence |
| ArgparseToMd.RunLength | docs/argparse_to_md.py:36-83 | at most two output lines per input line |
| Text.LStrip | docs/argparse_to_md.py:38 | `lstrip` never lengthens the text (what it removes and keeps: `Text.LStripFacts`) |
| Text.RStrip | docs/argparse_to_md.py:39 | `rstrip` never lengthens the text (what it removes and keeps: `Text.RStripFacts`) |
| Text.LStripFacts | docs/argparse_to_md.py:38 | `lstrip` removes an all-space prefix and keeps a suffix that does not start with space |
| Text.RStripFacts | docs/argparse_to_md.py:39 | `rstrip` removes an all-space suffix and keeps a prefix that does not end in space |
| Text.Strip | tools/id_to_mol2.py:68 | `strip` leaves no space at either end, leaves space-free text alone, and is empty iff the text is all space |
| Text.StripLine | tools/id_to_mol2.py:68 | a word and its newline strip back to the word |
| Text.Lower | tools/id_to_mol2.py:42 | same length; A-Z lowered, every other character kept (the ASCII part of `str.lower`) |
| Text.ConcatAppend | tools/id_to_mol2.py:100 | `''.join` of two lists is the concatenation |
| Text.SplitOn | tools/funcgroup_presence_to_id.py:65 | `split(sep)` has at least one piece, the first a prefix |
| Text.SplitOnLength | tools/funcgroup_presence_to_id.py:65 | `split(sep)` has one more piece than `count(sep)` |
| Text.SplitOnJoin | tools/funcgroup_presence_to_id.py:65 | joining the pieces with sep gives back the text |
| Text.SplitOnAbsent | tools/overlay_molecules_shapeit.py:72 | a text without the separator splits into itself |
| Text.SplitOnPiece | tools/overlay_molecules_shapeit.py:72 | a piece without the separator's first character comes out whole |
| Text.JoinSplitRoundTrip | tools/funcgroup_matching.py:193-195 | splitting a joined text on a character no piece holds gives the pieces back |
| Text.Word | tools/overlay_molecules_shapeit.py:91 | the longest space-free prefix |
| Text.Words | tools/overlay_molecules_shapeit.py:91 | `split()` gives non-empty words without white space |
| Text.WordsOfSpace | tools/overlay_molecules_shapeit.py:90-91 | all-space text has no words |
| Text.ReplaceAbsent | tools/funcgroup_to_id.py:46 | `replace` of an absent pattern changes nothing |
| Text.ReplaceLength | tools/datatable_to_id.py:53 | each replaced occurrence changes the length by len(rep) - len(pat) |
| Text.ReplaceSuffix | tools/funcgroup_selection.py:86-90 | a single trailing occurrence is replaced |
| Text.NatToString | tools/enumerate_conformers.py:106 | `'%d'` prints a non-empty run of digits |
| Text.DigitsRoundTrip | tools/funcgroup_distance_to_id.py:45 | `int('%d' % n) == n` on the digits |
| Text.NatToStringInjective | tools/enumerate_conformers.py:106 | two numbers never print the same |
| Text.ParseIntRoundTrip | tools/funcgroup_distance_to_id.py:45 | `int()` reads back what `'%d'` printed |
| Text.DigitsStrip | tools/funcgroup_distance_to_id.py:45 | stripping leaves digits alone |
| Text.Without | tools/funcgroup_distance_to_id.py:45 | dropping a character never lengthens the text |
| Text.WithoutFacts | tools/funcgroup_distance_to_id.py:45 | dropping keeps exactly the other characters, keeps a first character that is not dropped, and changes nothing when the character is absent |
| Text.LiteralDigits | tools/funcgroup_distance_to_id.py:45 | a decimal literal without its underscores is a non-empty run of digits |
| Text.DigitsNoUnderscore | tools/funcgroup_distance_to_id.py:45 | plain digits are a decimal literal with nothing to drop |
| Text.WithoutAppend | tools/funcgroup_distance_to_id.py:45 | dropping a character distributes over concatenation |
| Text.UnderscoredLiteral | tools/funcgroup_distance_to_id.py:45 | two digit groups around one underscore form a literal `int()` accepts |
| Text.ParseIntUnderscored | tools/funcgroup_distance_to_id.py:45 | `int()` reads one underscore between digit groups as if it were absent |
| Text.ParseIntEdgeUnderscore | tools/funcgroup_distance_to_id.py:45 | a leading or trailing underscore is a ValueError |
| Text.ParseIntDoubleUnderscore | tools/funcgroup_distance_to_id.py:45 | a doubled underscore is a ValueError |
| Text.ParseIntLiteral | tools/funcgroup_distance_to_id.py:45 | a clean, unsigned decimal literal is read as the value of its digits, underscores dropped |
| Text.UnderscoredDigits | tools/funcgroup_distance_to_id.py:45 | dropping the underscore between two digit groups joins them |

## Left out

- File I/O, gzip and bytes. Every tool opens, decompresses and writes files. The model takes each file's lines or records as values and returns the text written. The model covers uncompressed `.mol2` input only; the `.gz` branches are not modelled. Several of them behave differently from the text branches or fail where those succeed, among them: mol2_to_id (tools/mol2_to_id.py:47,52,67-68) accepts `mol2.gz` files but adds the `bytes` id of `split_multimol2` to `'\n'`, which raises TypeError at the first record of a non-empty file; sort_rocs_mol2's query branch (tools/sort_rocs_mol2.py:94-105) rebuilds each stored record with `''.join` of its `split('\n')` pieces, so the newlines are lost, and outside multi-conformer mode the name stays `bytes`, never matches the report's names and the later lookup raises KeyError; sort_rocs_mol2's database loop (tools/sort_rocs_mol2.py:125-129) has no gz branch and passes a `bytes` id to `os.path.join` with a `str` directory, which raises TypeError for every compressed database file; funcgroup_matching_selection (tools/funcgroup_matching_selection.py:156-179) joins a `str` "DID NOT FIND" placeholder with `b''.join`, which raises TypeError.
- Verbose and timing output (apart from the UnboundLocalError of an empty first file, which is modelled), `print`, progress messages, `os.mkdir` of the output directory and the Shape-it warning about compressed input are not modelled.
- Foreign libraries are inputs. biopandas' `split_multimol2` output is the given record sequence. `PandasMol2` atom tables are given as `Tables.Atom` sequences. `pd.eval` evaluates a given `Tables.Pred`; a comparison on a missing column is false, and comparing a number with a string is false rather than a `TypeError`. `pd.read_table` is a given `Tables.Table`.
- Table shape. Tables are assumed rectangular (every row has the header's columns). `TableRow` cells are the parsed values; `pd.to_numeric` of the charge columns is not modelled.
- Floating point. Coordinates are integers and distances are compared squared. NaN charges are `None`. The charge table's `"1.2f"` formatting is not modelled: `FuncgroupMatching.ReadAndWrite` states the atom-type table only.
- `mputil.lazy_imap` is a sequential map. The process pool, the chunk size and `get_num_cpus` of funcgroup_matching (the same function as `FuncgroupPresenceToId.GetNumCpus`) are not modelled separately.
- `subprocess` calls are not modelled: `mol_count_shell` (`grep | wc -l` is `CountMol2.ShellCount`, counting lines containing the marker), `get_help_messages`, the Shape-it call and the `main` functions of argparse_to_md and overlay_molecules_shapeit.
- Text.Lower: lowers the ASCII letters A-Z only and maps every other character to itself; Python's `str.lower` (tools/id_to_mol2.py:42) also lowers non-ASCII letters, and some of them (`'İ'.lower()` is two characters) change the length, so `Text.Lower`'s one-for-one mapping holds for ASCII text only.
- Text.ParseInt: `int()` also reads the decimal digits of other scripts (`int("٣") == 3`); the model reads ASCII digits, with Python's single underscores between them, only.
- FuncgroupDistanceToId.CheckArguments: a bound written with non-ASCII decimal digits passes `check_arguments` in Python and is rejected here, as `Text.ParseInt` reads ASCII digits only.
- SortRocsMol2.SortRows: pandas' `sort_values` is not stable by default. The model fixes one order (a stable insertion sort) and proves only its specification: a permutation, non-increasing by the sortby scores.
- SortRocsMol2.Score: a non-numeric score cell is read as 0.0 to keep the sort key total; ROCS reports hold numbers there.
- SortRocsMol2.BuildQueryStore: under `--id_suffix` every query record must have a name line (`NameLines`). A record of fewer than two lines would make `cont[1] = ...` raise, and that path is not modelled.
- SortRocsMol2.ReadAndWrite: on a missing record the model returns the error and discards the partial output files.
- The temporary directory of pickles is a map, so an id holding '/' (which would make a nested path) is not distinguished.
- The derivation of each report path from its MOL2 file in sort_rocs_mol2's `main` is not modelled; the report and the files are given together.
- FuncgroupMatching.ReadAndWrite: the header comes from the query file's first record, as `read_mol2` reads only the first molecule. An empty query file fails.
- funcgroup_matching's `main` (pairing `csv_out_bases` by zip of the file lists) and the `main` loops of the two selection tools over the zipped file lists are not modelled: each pass is `ProcessPair`. `to_csv` of the filtered tables is not modelled.
- IdToMol2.FilterAndWrite, Mol2ToId.Mol2ToIdFile, EnumerateConformers.ReadAndWrite: `verbose` is a flag, as any non-zero `--verbose` acts alike; the printed counts and rates are not modelled.
- SelectionText.QualifyColumns: columns must be non-empty strings, as header names are.
- Output files named by base name alone collide when two inputs share a base name; the model returns one output per input and does not model the overwrite.
- The id of the first record equal to the initial `prev_molecule` '' and a record of fewer than two lines both raise in enumerate_conformers; the model stops there (`EnumerateConformers.FirstFailure`) rather than modelling the exception type.

## Findings

| source | as written | input that shows it | evidently intended | confidence | as-written member | corrected member |
|---|---|---|---|---|---|---|
| tools/funcgroup_to_id.py:64-66 | `print(selection)` and `sys.exit()` inside the record loop, before the selection is evaluated | any MOL2 file with one record: nothing is written and the program exits | evaluate the selection and write the ids of matching records | not executed | FuncgroupToId.ReadAndWriteAsWritten | FuncgroupToId.ReadAndWrite (with FuncgroupToId.SelectedRecordIsWritten) |
| tools/sort_rocs_mol2.py:92-111 | `cnt = -1`, raised before each use, labels the conformers `id_0, id_1, …` | a query file of eleven conformers of 3kPZS and a report that names the eleventh `3kPZS_11`, as the `--id_suffix` help text (tools/sort_rocs_mol2.py:228-237) says: no record is stored under that name and the lookup raises KeyError | labels and help text agree; the help text numbers from 1, while enumerate_conformers numbers from 0 as this code does, so which half is meant cannot be settled from the repository, and the tool model keeps the code's labels | low; not executed | SortRocsMol2.QueryName (with SortRocsMol2.FirstConformerLabelledZero, SortRocsMol2.CodeNamesOfOneId and SortRocsMol2.DocumentedLastNameFails) | SortRocsMol2.DocumentedName (with SortRocsMol2.DocumentedNamesOfOneId and SortRocsMol2.DocumentedNamesDistinct) |
| tools/funcgroup_matching.py:66 | `len(q_list) != len(q_list)` compares the query list with itself | the listing `["a_query.mol2"]`: one query file and no database file pass the check | raise when the query and database lists differ in length | not executed | FuncgroupMatching.GetDbaseQueryPairsAsWritten (with FuncgroupMatching.UnpairedQueryAccepted) | FuncgroupMatching.GetDbaseQueryPairs |
