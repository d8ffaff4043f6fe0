# csvmerger in Dafny

A model of the dictionary-entry logic of csvmerger, a tool that reads
flash-card CSV files (`Japanese,English,tags`) and reconciles their entries.
The model covers three Go packages:

- `types`: the tag set (`TagSet`) and the dictionary entry (`Entry`).
  - A `TagSet` is built by splitting a string on single spaces and dropping
    empty pieces. It grows only through `Insert`. `Sort` and `ToString` render
    it in Go's string order, separated by spaces and trimmed.
  - An `Entry` holds two texts and a reference to a `TagSet`. Two entries are
    equal when both texts match; tags do not matter. An entry is redefined
    when exactly one text matches. `MergeTags` adds a source entry's tags to
    the receiver's tag set in place, and fails on unequal entries.
- `entries`: `Find`, a first-match scan that returns the haystack's own
  entry object, so a caller can change that entry's tags in place.
- `file`: `LineToEntry`, a comma split with an exact three-field check, and
  the line loop of `CSVToEntries`. The loop skips empty lines and stops at
  the first line that does not parse. Here it runs over a given sequence of
  lines.

Modules:

- `Wrappers` holds the `Result` and `Outcome` types.
- `GoStrings` holds Go's `strings.Split`, `strings.Join` and
  `strings.TrimSpace` for a one-character separator. `TrimSpace` uses the
  full list of characters that Go's `unicode.IsSpace` accepts.
- `StringOrder` holds Go's byte-wise string order, the contract of
  `sort.Strings`, and the unique ascending listing of a set.
- `Types`, `Entries` and `File` follow the Go packages.

Go's `map[string]bool` tag map is a `set<string>` field of the `TagSet`
class. `Entry` is a class whose texts and tag-set reference are `const`,
because Go never reassigns them. The tag set they point to is changed in
place.

## Model

| member | source | states |
|---|---|---|
| GoStrings.Split | pkg/types/tagset.go:19 | `strings.Split` with a one-character separator gives one more piece than there are separators, and no piece contains the separator |
| GoStrings.JoinSplit | pkg/file/file.go:13 | joining the pieces of a split with the separator gives the original string back |
| GoStrings.SplitJoin | pkg/types/tagset.go:19 | splitting joined separator-free parts gives the parts back, so the pieces of a split are determined uniquely |
| GoStrings.TrimRight | pkg/types/tagset.go:47 | the result is a prefix of the input; everything it drops is white space, and its last character is not white space |
| GoStrings.TrimLeft | pkg/types/tagset.go:47 | the result is a suffix of the input; everything it drops is white space, and its first character is not white space |
| GoStrings.TrimSpace | pkg/types/tagset.go:47 | the result has no white space at either end, and a string with none there is returned unchanged |
| GoStrings.TrimSpaceIsSlice | pkg/types/tagset.go:47 | `strings.TrimSpace` removes white space at the two ends and nothing else: its result is a slice of the input with only white space before and after it |
| GoStrings.IsSpace | pkg/types/tagset.go:47 | the characters `strings.TrimSpace` removes are those Go's `unicode.IsSpace` accepts: tab to carriage return, space, U+0085, U+00A0, U+1680, U+2000 to U+200A, U+2028, U+2029, U+202F, U+205F and U+3000 |
| StringOrder.Less | pkg/types/tagset.go:57 | Go's `<` on strings as `sort.Strings` uses it: code points compared in turn, a proper prefix first |
| StringOrder.LessIrreflexive | pkg/types/tagset.go:57 | no string sorts before itself in Go's string order |
| StringOrder.LessTransitive | pkg/types/tagset.go:57 | Go's string order is transitive |
| StringOrder.LessTotal | pkg/types/tagset.go:57 | of two different strings, one sorts before the other |
| StringOrder.LessAsymmetric | pkg/types/tagset.go:57 | two strings never each sort before the other |
| StringOrder.SortStrings | pkg/types/tagset.go:57 | `sort.Strings` returns an ascending sequence holding each input string as many times as the input does |
| StringOrder.Listing | pkg/types/tagset.go:52-59 | every finite set of strings has a strictly ascending listing with exactly its members, one entry per member |
| StringOrder.ListingUnique | pkg/types/tagset.go:52-59 | two strictly ascending listings of the same set are equal, so the sorted output is deterministic |
| StringOrder.SortedIsListing | pkg/types/tagset.go:52-59 | sorting the keys of a set (each key once) gives that set's unique listing |
| Types.Tokens | pkg/types/tagset.go:18-27 | every tag named by a tag string is non-empty and has no space |
| Types.TagSet.constructor | pkg/types/tagset.go:15-27 | NewTagSet never fails; its set is exactly the non-empty pieces of the string split on spaces |
| Types.TagSet.Insert | pkg/types/tagset.go:29-38 | the new set is the old set plus the non-empty pieces of the argument; nothing is removed, and inserting tags already present changes nothing |
| Types.TagSet.Sort | pkg/types/tagset.go:50-59 | the result lists every tag exactly once in ascending string order, so its length is the set's size, and it is the set's unique listing |
| Types.WriteEntries | pkg/types/tagset.go:44-46 | the builder loop writes each sorted tag followed by one space |
| Types.TagSet.ToString | pkg/types/tagset.go:40-48 | the result is the trimmed rendering of the sorted tags; it has no white space at either end, and the empty set gives "" |
| Types.RenderedIsJoin | pkg/types/tagset.go:41-48 | when no tag starts or ends with white space, the rendering is the sorted tags joined by single spaces |
| Types.TokensOfRendered | pkg/types/tagset.go:41-48 | splitting the rendering back into tags gives the original set, when no tag starts or ends with white space |
| Types.MergedIsUnion | pkg/types/entry.go:41-47 | merging gives the union of the two tag sets when no source tag starts or ends with white space; merging a subset of the receiver's tags changes nothing |
| Types.Entry.constructor | pkg/types/entry.go:15-22 | NewEntry stores both texts verbatim and a fresh tag set equal to NewTagSet of the tags |
| Types.Entry.ToString | pkg/types/entry.go:24-26 | the line is Japanese, English and the rendered tags, separated by commas |
| Types.Entry.MergeTags | pkg/types/entry.go:41-47 | unequal entries fail and change nothing; equal entries succeed and the receiver gains the tags read back from the source's rendering; a source with its own tag set is unchanged |
| Types.Entry.MergeTagSets | pkg/types/entry.go:41-47 | corrected merge: on equal entries the receiver's tags become exactly the union of both sets; unequal entries fail and change nothing |
| Types.EntriesRedefined | pkg/types/entry.go:34-39 | redefinition holds exactly when one text matches and the other does not; it never holds for equal entries or for entries sharing no text |
| Types.EntriesAreEqual | pkg/types/entry.go:28-31 | two entries are equal exactly when both the Japanese and the English texts match; tags are not compared |
| Types.EqualityIsEquivalence | pkg/types/entry.go:28-31 | entry equality is reflexive, symmetric and transitive, and it depends only on the two texts |
| Types.TokensExamples | pkg/types/tagset_test.go:22-30 | "" names no tags and "1 1" names one tag |
| Types.TokensOfTwo | pkg/types/tagset_test.go:54-57 | inserting "1 2" adds two tags, "1" and "2" |
| Types.SortIsStringOrder | pkg/types/tagset_test.go:125-129 | the tags of "verb 1 2 10" sort as "1", "10", "2", "verb" |
| Types.RenderExample | pkg/types/tagset_test.go:94-98 | the set {"22", "12", "1"} renders as "1 12 22" |
| Types.MergeTagsLosesEdgeSpace | pkg/types/entry.go:45 | a source tag "a\t" reaches the receiver as "a", not as "a\t" |
| Entries.Find | pkg/entries/entries.go:10-21 | found holds exactly when some haystack entry equals the needle; the target is then the first such entry itself, otherwise it is null |
| File.LineFields | pkg/file/file.go:13-16 | a line fails exactly when it does not contain two commas, and the error reports the field count; on success the three fields contain no comma and joined by commas give the line back |
| File.LineFieldsOfJoined | pkg/file/file.go:12-18 | three comma-free texts joined by commas read back as those three fields |
| File.LineToEntry | pkg/file/file.go:12-18 | fails exactly as the field split does; otherwise it returns a new entry built by NewEntry from the three fields |
| File.EntryLineRoundTrip | pkg/file/file.go:12-18 | parsing the line an entry prints gives back its texts and its tags, when no text or tag contains a comma and no tag starts or ends with white space |
| File.TrailingCommaNoTags | pkg/file/file_test.go:23-27 | the line "まち,city / town," gives an entry with an empty tag set |
| File.ParseLinesSucceeds | pkg/file/file.go:28-40 | the loop succeeds exactly when every non-empty line has two commas |
| File.ParseLinesInOrder | pkg/file/file.go:28-40 | on success there is one entry per non-empty line, in line order |
| File.ParseLinesFailsFast | pkg/file/file.go:34-37 | on failure the error is the one from the first non-empty line that does not parse |
| File.CSVToEntries | pkg/file/file.go:28-40 | the line loop fails exactly when the fold fails, with its error and no entries; otherwise it returns one new entry per parsed line, in order, each a fresh object with its own fresh tag set |

## Left out

- `main.go` is not part of this model. That covers its argument handling, its logging and its fold over files. The fold calls `entries.Merge`, whose body is not in `pkg/entries/entries.go`.
- `entries.Merge` is not modelled, because it is not in the modelled source. Neither is a corpus-wide search for redefinitions, a conflict-report mode, or quote-aware field parsing. `LineToEntry` splits on every comma.
- File I/O in `CSVToEntries` is not modelled: opening and closing the file, `bufio.Scanner` and its read errors (pkg/file/file.go:21-27, 41-43). The loop takes the lines as a sequence. How the scanner breaks bytes into lines is not modelled, including its line-length limit and its dropping of a trailing carriage return.
- Go's map iteration order is not modelled, because every output is sorted. The tag map is a set, and the `false` values Go could store never occur.
- The error result of `NewTagSet` is not modelled. It is always nil, and `NewEntry` discards it.
- Errors are a failure variant carrying the field count and the line. The message text and the stack wrapping from `errors.Errorf`, `errors.Wrap` and `errors.WithStack` are not modelled.
- Strings are sequences of Unicode scalar values. A Go string may hold invalid UTF-8, which is not modelled. For valid UTF-8, Go's byte-wise order equals the code-point order modelled here.
- Only the contract of `sort.Strings` is modelled (ascending, same strings with the same counts). The model meets it with an insertion sort, not Go's pdqsort.
- The haystack of `Find` holds entry objects, never nil. A nil element would make the Go code panic, and that is not modelled.
- When no line gives an entry, Go returns a nil slice and the model returns an empty sequence. A Go caller can tell a nil slice from an empty one by comparing with nil (or with `reflect.DeepEqual`); the model has only the empty sequence, and no caller in the modelled code makes that comparison.

## Findings

| source | as written | input that shows it | evidently intended | confidence | as-written member | corrected member |
|---|---|---|---|---|---|---|
| pkg/types/entry.go:45 | MergeTags copies the source's tags by rendering them with `ToString`. `ToString` applies `strings.TrimSpace` to the whole rendering, so white space at the start of the first tag or the end of the last tag is lost. | Two equal entries; the receiver has no tags and the source has the tag "a\t" (read from the line "x,y,a\t"). The receiver ends with {"a"}. | The receiver's tags become the union of the two sets, here {"a\t"}. | medium; not executed | Types.MergeTagsLosesEdgeSpace | Types.Entry.MergeTagSets |
