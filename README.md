# Teaching-exercise scripts: name list, log analysis and CSV codec, in Dafny

This project models three of the repository's small Python scripts and proves
properties of the models:

- **Name list** (`Delopgave_1/intro_to_python.py`).
  - `read_names` takes the first line of a file, then strips it, lowercases it and splits it at commas.
  - `sort_names_alphabetically` is `sorted(names)`; `sort_names_length` is `sorted(names, key=len)`.
  - `count_letters_in_names` counts every alphabetic character of the names in a dictionary.
- **Log analysis** (`Delopgave_2/logfil-analyse.py`).
  - `read_file` splits the stripped text of a log at newlines.
  - `seperate_log_by_type` puts each message into one of four buckets (INFO, WARNING, ERROR, SUCCESS) with an if/elif chain on substring tests.
  - `write_dict_to_files` writes each bucket, one message per line, to `<key lowercased>_log.txt` in a directory.
- **CSV codec** (`Delopgave_3/error_handling.py`).
  - `read_csv` refuses a path that does not end in `.csv`. Otherwise it splits the stripped text into lines and each line at commas.
  - `write_csv` writes each row joined with commas and followed by a newline to `output_data.csv` in a directory.

Modules:

- `Wrappers` (wrappers.dfy) holds `Option` and `Result`, which stand for the scripts' exceptions and `None` returns.
- `Strings` (strings.dfy) holds the Python string operations the scripts rely on, with their own contracts:
  - `strip()`, over Python's full whitespace class;
  - ASCII `lower()` and `isalpha()`;
  - `split(sep)` and `sep.join(...)`;
  - the substring test `k in s`;
  - `endswith`;
  - the universal-newline translation that reading a file in text mode performs.
- `Files` (files.dfy) holds the file system, kept in memory as a map from a path to an entry:
  - a text, a file that cannot be decoded, or something `open` fails on;
  - reading, with its three exceptions;
  - the POSIX `os.path.join`;
  - the one failure of `os.makedirs` the model keeps: the empty path.
- `Names`, `LogAnalysis` and `Csv` (names.dfy, log_analysis.dfy, csv.dfy) hold the three scripts.

The model takes the source's own forms:

- The loops of `seperate_log_by_type`, `write_dict_to_files`, `count_letters_in_names` and `write_csv` are methods with loops. Each is proved equal to a specification function, and the properties are lemmas about that function.
- The pure expression chains (`read_file`, `read_names`, the parse in `read_csv`, the two `sorted` calls) are functions.

The CSV code is simpler than a CSV reader usually is, and the model follows the code as written:

- The code does not trim individual fields; only the whole text is stripped.
- It has no row filters.
- It has no header handling.
- It has no error for an empty file: a blank file parses to one row with one empty field (`Csv.BlankTextIsOneEmptyRow`).
- It has no permission check before reading.
- A failure in `read_csv`, and an `IOError` in `write_csv`, is caught and printed, and the function returns `None`. The model returns an error value instead. Any other exception escapes, such as the `TypeError` of `write_csv(None, …)` (`Csv.WriteCsvNone`).

## Model

| member | source | states |
|---|---|---|
| `Strings.IsSpace` | Delopgave_2/logfil-analyse.py:9 | `str.isspace` on one character: membership in the constant `Whitespace`, the 29 code points Python treats as whitespace; `Strings.Strip` and `Strings.StripRemovesOuterSpace` state what `strip()` removes with it |
| `Strings.LeadingSpaces` | Delopgave_2/logfil-analyse.py:9 | the counted leading characters are whitespace and the next one is not |
| `Strings.TrailingSpaces` | Delopgave_2/logfil-analyse.py:9 | the counted trailing characters are whitespace and the one before them is not |
| `Strings.Strip` | Delopgave_2/logfil-analyse.py:9 | `s.strip()` is no longer than `s` and neither starts nor ends with whitespace |
| `Strings.StripRemovesOuterSpace` | Delopgave_2/logfil-analyse.py:9 | `s` is whitespace, then `s.strip()`, then whitespace: only outer whitespace is removed |
| `Strings.StripTrailingSpace` | Delopgave_3/error_handling.py:11 | stripping a text with no outer whitespace followed by whitespace gives the text back |
| `Strings.Lower` | Delopgave_1/intro_to_python.py:4 | `lower()` keeps the length, lowers each character, and leaves no upper-case ASCII letter |
| `Strings.ContainsOccurs` | Delopgave_2/logfil-analyse.py:16-22 | the substring test `k in s` holds exactly when `k` occurs at some index of `s` |
| `Strings.Contains` | Delopgave_2/logfil-analyse.py:16-22 | the substring test `k in s` of the if/elif chain; its meaning is given by `Strings.ContainsOccurs` |
| `Strings.EndsWith` | Delopgave_3/error_handling.py:8 | `s.endswith(suffix)`: the last `len(suffix)` characters of `s` are `suffix`; `Files.PathJoinEndsWith` and `Csv.ExtensionCheckedFirst` use it |
| `Strings.IsAlpha` | Delopgave_1/intro_to_python.py:20 | ASCII `isalpha()`; what it selects for the tally is stated by `Names.CountInSpec` |
| `Strings.Split` | Delopgave_2/logfil-analyse.py:9 | `split(sep)` gives at least one piece, and no piece holds the separator |
| `Strings.SplitCount` | Delopgave_3/error_handling.py:11 | `split(sep)` gives one more piece than there are separators |
| `Strings.SplitJoinsBack` | Delopgave_2/logfil-analyse.py:9 | joining the pieces of `split(sep)` with `sep` gives the text back |
| `Strings.Join` | Delopgave_3/error_handling.py:26 | `sep.join(parts)`; its meaning is fixed by `Strings.SplitJoin`, `Strings.SplitJoinsBack`, `Strings.JoinChars` and `Strings.JoinHasPartChars` |
| `Strings.SplitAtSep` | Delopgave_3/error_handling.py:11 | a leading piece without the separator splits off as the first piece |
| `Strings.SplitJoin` | Delopgave_3/error_handling.py:11 | splitting undoes joining when there is a part and no part holds the separator |
| `Strings.JoinChars` | Delopgave_3/error_handling.py:26 | a character other than the separator occurs in a joined text only if some part holds it |
| `Strings.JoinHasPartChars` | Delopgave_3/error_handling.py:11 | every character of a part occurs in the joined text |
| `Strings.Terminated` | Delopgave_2/logfil-analyse.py:32-33 | the text a `write(f"{line}\n")` loop leaves in a file; its meaning is fixed by `Strings.TerminatedSnoc`, `Strings.TerminatedIsJoin` and `Strings.TerminatedEnds` |
| `Strings.TerminatedSnoc` | Delopgave_2/logfil-analyse.py:32-33 | writing one more line appends the line and its newline to the output |
| `Strings.TerminatedIsJoin` | Delopgave_2/logfil-analyse.py:32-33 | a file written line by line is the lines joined at newlines plus a final newline |
| `Strings.TerminatorCount` | Delopgave_2/logfil-analyse.py:32-33 | with no newline inside a line, the written output holds exactly one newline per line |
| `Strings.TerminatedEnds` | Delopgave_3/error_handling.py:25-26 | the written text is empty exactly when there are no lines, and otherwise ends with a newline |
| `Strings.TranslateNewlines` | Delopgave_2/logfil-analyse.py:8-9 | text read in text mode holds no carriage return (the conversion itself is `Strings.TranslateSteps`) |
| `Strings.TranslateSteps` | Delopgave_3/error_handling.py:10-11 | reading turns `"\r\n"` into one newline and a `'\r'` not followed by `'\n'` into one newline, and keeps every other character |
| `Strings.TranslateEmpty` | Delopgave_1/intro_to_python.py:3-4 | a read text is empty exactly when the stored text is, so `readlines()` has no first line exactly for an empty file |
| `Strings.TranslateWithoutReturn` | Delopgave_3/error_handling.py:10-11 | text without a carriage return reads back unchanged |
| `Files.ReadText` | Delopgave_2/logfil-analyse.py:8-9 | a read of a text file succeeds and gives its stored text with `"\r\n"` and `"\r"` turned into `"\n"`, which holds no carriage return; a missing path raises `FileNotFoundError`, an undecodable file `UnicodeDecodeError`, and an entry `open` fails on an `OSError`, each exactly in its case |
| `Files.PathJoin` | Delopgave_3/error_handling.py:24 | POSIX `os.path.join`; its meaning is fixed by `Files.PathJoinShape`, `Files.PathJoinEndsWith` and `Files.PathJoinInjective` |
| `Files.PathJoinShape` | Delopgave_2/logfil-analyse.py:31 | an absolute name is the whole path; otherwise the path is the directory, a `/` exactly when the directory is non-empty and does not already end with one, and then the name |
| `Files.CanMakeDirs` | Delopgave_2/logfil-analyse.py:28-29 | the directory is there after `os.path.exists` and `os.makedirs`, except for the empty path, on which `os.makedirs` raises; used by `LogAnalysis.WriteLogFiles`, `Csv.WriteCsv` and `Csv.WriteCsvNone` |
| `Files.PathJoinEndsWith` | Delopgave_3/error_handling.py:24 | `os.path.join(dir, name)` ends with whatever `name` ends with |
| `Files.PathJoinInjective` | Delopgave_2/logfil-analyse.py:31 | two relative names joined onto one directory give one path only if they are the same name |
| `Names.FirstLine` | Delopgave_1/intro_to_python.py:4 | `readlines()[0]` is a prefix of the text with no newline before its last character; it is non-empty for a non-empty text and ends with a newline unless it is the whole text |
| `Names.ParseNames` | Delopgave_1/intro_to_python.py:4 | one more name than the lowered, stripped line has commas; no name holds a comma; joining the names with commas gives back the lowered, stripped line |
| `Names.ParsedNamesLowercase` | Delopgave_1/intro_to_python.py:4 | no name holds an ASCII upper-case letter |
| `Names.ReadNames` | Delopgave_1/intro_to_python.py:1-5 | a failed read gives that read's own error (`FileNotFoundError` for a missing file); an empty file gives `IndexError`; the names are returned exactly for a non-empty text file, and they are the parse of the first line of the read text |
| `Names.OnlyFirstLineRead` | Delopgave_1/intro_to_python.py:4 | whatever follows the first newline does not affect the names |
| `Names.LexLe` | Delopgave_1/intro_to_python.py:9 | Python's `str` order, the one `sorted(names)` uses: code point by code point, a proper prefix first; it is a total order by `Names.LexRefl`, `Names.LexTotal`, `Names.LexTrans` and `Names.LexAntisym` |
| `Names.LexRefl` | Delopgave_1/intro_to_python.py:9 | Python's string order is reflexive |
| `Names.LexTotal` | Delopgave_1/intro_to_python.py:9 | any two strings are ordered one way or the other |
| `Names.LexTrans` | Delopgave_1/intro_to_python.py:9 | the string order is transitive |
| `Names.LexAntisym` | Delopgave_1/intro_to_python.py:9 | strings ordered both ways are equal |
| `Names.EquivIffBoth` | Delopgave_1/intro_to_python.py:13 | two names have equal keys exactly when each key is at most the other |
| `Names.Insert` | Delopgave_1/intro_to_python.py:9 | an insertion adds exactly the inserted name to the multiset |
| `Names.InsertSorted` | Delopgave_1/intro_to_python.py:9 | inserting into a sorted sequence keeps it sorted |
| `Names.InsertClass` | Delopgave_1/intro_to_python.py:13 | an insertion puts the name in front of the names with its key, and changes no other key class |
| `Names.SortBy` | Delopgave_1/intro_to_python.py:7-13 | `sorted` returns a permutation of its input that is sorted by the key, and names with equal keys keep their input order |
| `Names.ClassMembers` | Delopgave_1/intro_to_python.py:13 | a key class holds only names of the sequence with that key, and holds `y` itself when `y` is in the sequence |
| `Names.SortedFirstLeast` | Delopgave_1/intro_to_python.py:9 | the first name of a sorted sequence has the least key |
| `Names.SortedSameHead` | Delopgave_1/intro_to_python.py:13 | two sorted sequences with the same key classes start with the same name |
| `Names.SameClassesTail` | Delopgave_1/intro_to_python.py:13 | removing the same first name from two sequences keeps their key classes equal |
| `Names.SortedUnique` | Delopgave_1/intro_to_python.py:9-13 | two sorted sequences with the same key classes are equal |
| `Names.StableSortIsSortBy` | Delopgave_1/intro_to_python.py:13 | every sorted order that keeps each key class in input order is the model's sort, so the model is exactly Python's stable `sorted` |
| `Names.SortNamesAlphabetically` | Delopgave_1/intro_to_python.py:7-9 | the result is a permutation of the names in nondecreasing string order |
| `Names.SortNamesLength` | Delopgave_1/intro_to_python.py:11-13 | the result is a permutation with nondecreasing lengths, and names of one length keep their input order |
| `Names.Bump` | Delopgave_1/intro_to_python.py:20-21 | one `letter_count[c] = letter_count.get(c, 0) + 1` for a letter, nothing for another character; stated by `Names.CountInSnoc` |
| `Names.CountIn` | Delopgave_1/intro_to_python.py:17-22 | the dictionary after visiting a text; its meaning is fixed by `Names.CountInSpec` and `Names.SumCountIn` |
| `Names.Tally` | Delopgave_1/intro_to_python.py:15-22 | the dictionary `count_letters_in_names` returns; its meaning is fixed by `Names.TallyCounts`, `Names.TallySum` and `Names.TallyPermutation` |
| `Names.CountInSpec` | Delopgave_1/intro_to_python.py:17-21 | the dictionary has a key for each letter that occurs and no other key, and each key's value is its number of occurrences |
| `Names.CountInSnoc` | Delopgave_1/intro_to_python.py:20-21 | visiting one more character adds one to its count when it is a letter (starting from 0) and otherwise changes nothing |
| `Names.VisitStep` | Delopgave_1/intro_to_python.py:19-21 | one step of the inner loop is one such count update |
| `Names.FlattenPrefix` | Delopgave_1/intro_to_python.py:18-19 | one more pass of the outer loop visits the next name's characters after those already visited |
| `Names.CountLettersInNames` | Delopgave_1/intro_to_python.py:15-22 | the nested loops return the tally of all characters of all the names, in order |
| `Names.FlattenAppend` | Delopgave_1/intro_to_python.py:18-19 | the characters of two lists of names are those of the first list, then those of the second |
| `Names.FlattenOccurrences` | Delopgave_1/intro_to_python.py:18-21 | a character occurs in all the names together as often as the sum of its occurrences in each name |
| `Names.TallyCounts` | Delopgave_1/intro_to_python.py:15-22 | the keys are exactly the letters that occur in some name; each count is the letter's total number of occurrences over all the names, and is at least 1 |
| `Names.SumValuesRemove` | Delopgave_1/intro_to_python.py:17-21 | the sum of a dictionary's values is any key's value plus the sum of the rest |
| `Names.SumCountIn` | Delopgave_1/intro_to_python.py:17-21 | the counts of a text add up to its number of alphabetic characters |
| `Names.TallySum` | Delopgave_1/intro_to_python.py:15-22 | the counts add up to the number of alphabetic characters of all the names |
| `Names.FlattenSplitAt` | Delopgave_1/intro_to_python.py:18-19 | the characters visited are those of the names before name `k`, then its own, then those of the names after it |
| `Names.FlattenRemove` | Delopgave_1/intro_to_python.py:18-19 | taking one name out of the list takes exactly its characters out of the visited ones |
| `Names.FlattenPermutation` | Delopgave_1/intro_to_python.py:18-19 | permuting the names permutes the characters visited |
| `Names.TallyPermutation` | Delopgave_1/intro_to_python.py:15-22 | the tally does not depend on the order of the names |
| `Names.SortedTally` | Delopgave_1/intro_to_python.py:28-29 | counting the sorted names, as the main block does, gives the tally of the names |
| `LogAnalysis.Messages` | Delopgave_2/logfil-analyse.py:9 | there is at least one message; no message holds a newline; joining the messages with newlines gives back the stripped text |
| `LogAnalysis.ReadFile` | Delopgave_2/logfil-analyse.py:6-10 | the messages are returned exactly when the read succeeds, and they are the split of the read text; otherwise the error is the read's own error, which propagates uncaught |
| `LogAnalysis.LevelAt` | Delopgave_2/logfil-analyse.py:14 | each position of the if/elif chain has its level |
| `LogAnalysis.Classify` | Delopgave_2/logfil-analyse.py:15-23 | a message with no keyword goes nowhere; otherwise it goes to a level whose keyword it contains, and it contains no keyword tested earlier in the chain |
| `LogAnalysis.Bucket` | Delopgave_2/logfil-analyse.py:15-23 | the list one key ends up holding; its meaning is fixed by `LogAnalysis.BucketMembership`, `LogAnalysis.BucketIsSubsequence` and `LogAnalysis.BucketsPartitionMatched` |
| `LogAnalysis.BucketSnoc` | Delopgave_2/logfil-analyse.py:15-23 | one more message adds it to the end of its own bucket only |
| `LogAnalysis.KeywordsDistinct` | Delopgave_2/logfil-analyse.py:14 | the four dictionary keys are distinct |
| `LogAnalysis.SeparatedSnoc` | Delopgave_2/logfil-analyse.py:16-23 | appending a message to its level's list keeps the dictionary in step with the messages seen |
| `LogAnalysis.SeparatedSnocUnmatched` | Delopgave_2/logfil-analyse.py:15-23 | a message with no keyword leaves the dictionary in step with the messages seen |
| `LogAnalysis.SeparateLogByType` | Delopgave_2/logfil-analyse.py:12-24 | the dictionary has exactly the four keys, even for an empty log, and each key holds its level's messages in log order |
| `LogAnalysis.BucketMembership` | Delopgave_2/logfil-analyse.py:15-23 | a message is in a bucket exactly when it is in the log and its first matching keyword is that bucket's, so a message with "INFO" is only in INFO and one with no keyword is in no bucket |
| `LogAnalysis.BucketHasKeyword` | Delopgave_2/logfil-analyse.py:16-23 | every message in a bucket contains the bucket's key |
| `LogAnalysis.BucketsDisjoint` | Delopgave_2/logfil-analyse.py:15-23 | no message is in two buckets |
| `LogAnalysis.BucketIndices` | Delopgave_2/logfil-analyse.py:15-23 | a bucket's messages are the log's messages at strictly increasing positions |
| `LogAnalysis.BucketIsSubsequence` | Delopgave_2/logfil-analyse.py:15-23 | each bucket is a subsequence of the log, so it keeps the log's order |
| `LogAnalysis.BucketsPartitionMatched` | Delopgave_2/logfil-analyse.py:15-23 | the four buckets together are the messages with a keyword, each exactly once |
| `LogAnalysis.BucketSizes` | Delopgave_2/logfil-analyse.py:15-23 | the bucket lengths add up to the number of messages with a keyword |
| `LogAnalysis.MatchedMembership` | Delopgave_2/logfil-analyse.py:15-23 | the matched messages are exactly the log's messages that contain a keyword |
| `LogAnalysis.MatchedCount` | Delopgave_2/logfil-analyse.py:15-23 | the matched messages hold each message with a keyword as often as the log does, and no other message, so `LogAnalysis.BucketSizes` counts exactly those |
| `LogAnalysis.LogFileName` | Delopgave_2/logfil-analyse.py:31 | `f"{key.lower()}_log.txt"`; `LogAnalysis.LogFileNameStart` and `LogAnalysis.LogPathsDistinct` state what it gives the four keys |
| `LogAnalysis.LogPath` | Delopgave_2/logfil-analyse.py:31 | `path.join(dirpath, f"{key.lower()}_log.txt")`; `LogAnalysis.LogPathsDistinct` states that the four keys give four paths |
| `LogAnalysis.WriteItems` | Delopgave_2/logfil-analyse.py:30-33 | the outer loop over the items; its effect is stated by `LogAnalysis.WriteItemsSucceeds`, `LogAnalysis.WriteItemsContents` and `LogAnalysis.WriteItemsUntouched` |
| `LogAnalysis.WriteLogFiles` | Delopgave_2/logfil-analyse.py:26-33 | `write_dict_to_files` as a function: nothing is written when the directory cannot be made, and otherwise the items are written; `LogAnalysis.WriteDictToFiles` is proved equal to it |
| `LogAnalysis.WriteDictToFiles` | Delopgave_2/logfil-analyse.py:26-33 | the outer and inner loops have the effect of writing each item's messages, one per line, in item order, stopping at the first file that cannot be opened or at once when the directory cannot be made |
| `LogAnalysis.WriteItemsSucceeds` | Delopgave_2/logfil-analyse.py:30-33 | every item is written exactly when none of their files is inaccessible, also when two keys lower to the same file name |
| `LogAnalysis.WriteItemsContents` | Delopgave_2/logfil-analyse.py:30-33 | after a full write each item's file holds the concatenation of `message + "\n"` over its messages, in order |
| `LogAnalysis.WriteItemsUntouched` | Delopgave_2/logfil-analyse.py:30-33 | no path outside the items' files changes |
| `LogAnalysis.LogItems` | Delopgave_2/logfil-analyse.py:14 | the dictionary's items in insertion order: the four keys in the chain's order with their lists |
| `LogAnalysis.LogFileNameStart` | Delopgave_2/logfil-analyse.py:31 | a file name `key.lower() + "_log.txt"` starts with the key's first character lowered |
| `LogAnalysis.LogPathsDistinct` | Delopgave_2/logfil-analyse.py:31 | the four buckets go to four different files |
| `LogAnalysis.LogItemsDistinct` | Delopgave_2/logfil-analyse.py:30-31 | the classified dictionary's items go to pairwise different paths |
| `LogAnalysis.LogItemsAt` | Delopgave_2/logfil-analyse.py:14 | the item at a level's rank holds that level's key and bucket |
| `LogAnalysis.WriteClassifiedLogSucceeds` | Delopgave_2/logfil-analyse.py:41-42 | writing a classified log succeeds when the directory can be made and no log file is inaccessible |
| `LogAnalysis.WriteClassifiedLogContents` | Delopgave_2/logfil-analyse.py:41-42 | after a successful write each level's file holds its bucket, one message per line, in log order |
| `LogAnalysis.WriteClassifiedLogUntouched` | Delopgave_2/logfil-analyse.py:30-33 | the write touches no path but the four log files |
| `Csv.SplitRows` | Delopgave_3/error_handling.py:11 | the comprehension `[line.split(",") for line in …]`: one row per line, in order, each the split of its line at commas |
| `Csv.ParseCsv` | Delopgave_3/error_handling.py:11 | a parse has at least one row and every row has a field; the rest is `Csv.ParseCsvShape` and `Csv.ParseJoinsBack` |
| `Csv.ParseCsvShape` | Delopgave_3/error_handling.py:11 | one more row than the stripped text has newlines; every row has a field; no field holds a comma or a newline |
| `Csv.ParseJoinsBack` | Delopgave_3/error_handling.py:11 | joining each row with commas and the rows with newlines gives back the stripped text |
| `Csv.BlankTextIsOneEmptyRow` | Delopgave_3/error_handling.py:11 | a blank file parses to one row with one empty field, not to an error |
| `Csv.ReadCsv` | Delopgave_3/error_handling.py:5-17 | a path without `.csv` is refused; a missing file is `FileNotFoundError`; the table is returned exactly for a text file with a `.csv` path, and it is the parse of the read text |
| `Csv.ExtensionCheckedFirst` | Delopgave_3/error_handling.py:8-9 | for a non-`.csv` path the result does not depend on the file system: no read happens |
| `Csv.Serialise` | Delopgave_3/error_handling.py:25-26 | the written text is empty exactly for an empty table and otherwise ends with a newline; the rest is `Csv.SerialiseIsJoinedText` and `Csv.SerialiseLineCount` |
| `Csv.RowTexts` | Delopgave_3/error_handling.py:26 | `",".join(row)` for each row: one text per row; `Csv.SplitRowTexts` and `Csv.RowTextsPlain` state what it holds |
| `Csv.SerialiseIsJoinedText` | Delopgave_3/error_handling.py:25-26 | the output of a non-empty table is its joined text plus a final newline |
| `Csv.OutputPathIsCsv` | Delopgave_3/error_handling.py:24 | the output path ends with `.csv`, so `read_csv` accepts it |
| `Csv.WriteCsv` | Delopgave_3/error_handling.py:19-28 | the write succeeds exactly when the directory can be made and the output file opened; then `output_data.csv` in the directory holds `",".join(row) + "\n"` over the rows, in order, and nothing else changes; otherwise nothing changes |
| `Csv.WriteCsvNone` | Delopgave_3/error_handling.py:19-28 | `write_csv(None, dirpath)`: when the directory can be made and the file opened, `output_data.csv` is emptied and a `TypeError` escapes; otherwise the caught `IOError` leaves the file system unchanged |
| `Csv.FailedReadEmptiesOutput` | Delopgave_3/error_handling.py:37-38 | after a failed read, when the directory can be made and the output file opened, `output_data.csv` is left as writing an empty table would leave it, and reading it back gives one row with one empty field |
| `Csv.ReadThenWrite` | Delopgave_3/error_handling.py:37-38 | the main block's read then write: the file written for a table `read_csv` returned holds the input's stripped, translated text with one final newline |
| `Csv.SerialiseLineCount` | Delopgave_3/error_handling.py:25-26 | with no newline in a field, the output holds one newline per row |
| `Csv.RowTextsPlain` | Delopgave_3/error_handling.py:26 | with plain fields no written row holds a newline or carriage return |
| `Csv.SerialiseHasNoReturn` | Delopgave_3/error_handling.py:25-26 | with plain fields the output holds no carriage return, for every table including the empty one |
| `Csv.SplitRowTexts` | Delopgave_3/error_handling.py:11-26 | splitting each written row at commas gives the row back when every row has a field and no field holds a comma |
| `Csv.ParseSerialise` | Delopgave_3/error_handling.py:11-26 | round trip: parsing the written text gives the table back when the table has a row, every row has a field, no field holds a comma, newline or carriage return, and the joined text has no outer whitespace |
| `Csv.WriteThenRead` | Delopgave_3/error_handling.py:8-26 | under the same conditions, reading `output_data.csv` back after the write gives the table |

## Left out

- `Delopgave_4/intro_pandas.py` is not part of this model. It consists of pandas and matplotlib calls, float means, plotting and argparse.
- The `__main__` blocks and argparse are left out. The composition of the main blocks is stated as lemmas: `Names.SortedTally`, `LogAnalysis.WriteClassifiedLogContents`, and for the CSV script, which reads and then writes, `Csv.ReadThenWrite` on success and `Csv.FailedReadEmptiesOutput` with `Csv.WriteCsvNone` when `read_csv` returned `None`. `Csv.WriteThenRead` adds the reverse order.
- Printing is left out. The printed messages in the `except` branches of `read_csv` and `write_csv` are not modelled; those branches are an error result or an unchanged file system.
- Real file I/O is replaced by an in-memory map from path to entry. Directories are not modelled: an existing directory and one that `os.makedirs` creates behave alike, and `os.makedirs` fails only for the empty path, for which `os.path.exists` returns False; permissions are an entry that cannot be opened.
- A write that fails part-way through a file (disk full) is not modelled; opening is the only write failure.
- Writes always use `"\n"`, as on POSIX; Windows newline translation on write is left out.
- `Strings.Lower`: ASCII letters only. Python lowercases every cased Unicode character.
- `Names.ParsedNamesLowercase`: rules out only ASCII capitals, because `Strings.Lower` lowers only ASCII letters; a name such as `Åse` keeps its capital, where Python's `lower()` gives `åse`.
- `Strings.IsAlpha`: ASCII letters only. Python's `isalpha` and so `count_letters_in_names` also count letters such as `æ`, `ø`, `å`.
- Dictionary order: the dictionary `write_dict_to_files` iterates is given as its item sequence. For the classifier's dictionary, that is `LogItems`, in insertion order. The order of the keys of the letter tally is not modelled; the tally is a map.
- `LogAnalysis.BucketIndices`: states that the positions are increasing and hold the bucket's messages, not that they are exactly the positions of the log whose message goes to that bucket. That part is `LogAnalysis.BucketMembership` on values.
- `Names.SortBy` models `sorted` by an insertion sort, not Timsort. They agree on every input (`Names.StableSortIsSortBy`).
- Strings are sequences of Unicode code points; decoding bytes is a single `Undecodable` entry that raises on read.
