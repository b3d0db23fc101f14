# AutoProduct patch applier and file writer, modelled in Dafny

AutoProduct asks a language model for code as TOML, then writes each
`[[code]]` record to disk. A record either carries a full file body (`code`)
or a small line patch (`diff`). This project models the part of `main.ts`
that has behaviour worth proving:

- `applyDiff`: the line patch applier. It splits the file and the patch on
  `"\n"`. Each patch line starting with `+` appends the rest of the line. Each
  line starting with `-` deletes the first line equal to the rest, or does
  nothing if there is none. Every other line is ignored. The lines are then
  joined again.
- `saveCodeFiles`: the per-record dispatch, over an in-memory map from path
  to content. A truthy `code` overwrites the file. Otherwise a truthy `diff`
  patches the existing content. Patching a file that does not exist throws,
  and the loop stops there. Records are handled in order.
- The "files already generated" listing in the prompt: one
  `filepath: summary` line per known file, joined with `"\n"`.

Modules:

- `Wrappers`: `Option`, for an absent TOML field, and `Result`.
- `Lines`: `Split` and `Join`, which behave like JavaScript's
  `split("\n")` and `join("\n")`, with both round trips proved.
- `Patch`: the functional specification (`Classify`, `IndexOf`, `Step`,
  `ApplyLines`, `ApplyDiffSpec`), the imperative `ApplyDiff` loop proved
  against it, and the patch properties.
- `Materialize`: the class `Dist`, whose `files` map the method
  `SaveCodeFiles` updates entry by entry. `SaveAll` is the functional
  specification it is proved against, and the dispatch properties are
  lemmas about `SaveAll`.
- `Prompt`: the context listing.

Some behaviour of `main.ts` worth noting:

- An entry with neither `code` nor `diff`, or with only empty strings, is
  skipped silently. It is not rejected.
- A known file has only `filepath` and `summary`. It has no interface
  descriptor.
- The list of known files is created empty and never filled. Nothing
  deduplicates it.
- A patch of a missing file fails with whatever `Deno.readTextFile` throws.
  The model calls this `MissingFile`.

## Model

| member | source | states |
|---|---|---|
| Lines.Split | main.ts:69-70 | splitting on a line break always gives at least one piece, and no piece contains a line break |
| Lines.JoinSplit | main.ts:69-86 | joining the pieces of any split gives back the original text exactly |
| Lines.Join | main.ts:86 | definition, no contract: `join("\n")`, with the empty array joining to ""; its properties are Lines.JoinSplit, Lines.SplitJoin and Lines.JoinSnoc |
| Lines.SplitSingle | main.ts:69-70 | a text without a line break splits into itself alone |
| Lines.SplitAround | main.ts:69-70 | splitting at a line break splits the text before it and the text after it independently |
| Lines.JoinSnoc | main.ts:77-86 | joining lines after one more line is appended puts a line break and that line after the old join |
| Lines.SplitJoin | main.ts:86 | splitting a join of at least one line-break-free line gives back those lines |
| Patch.Classify | main.ts:73-74 | a patch line is an add exactly when its first character is `+` and a remove exactly when it is `-`, and the text after that character is kept verbatim; an empty line is neither |
| Patch.IndexOf | main.ts:79 | the result is -1 exactly when the line is absent, and otherwise the lowest index holding it |
| Patch.Step | main.ts:73-83 | definition, no contract: the line array after one patch line; its properties are Patch.AddAppends, Patch.RemoveAbsent, Patch.RemoveAtFirst and Patch.RemoveFirstMatch |
| Patch.ApplyLines | main.ts:72-84 | definition, no contract: the patch lines applied in order; its properties are Patch.ApplyConcat, Patch.IgnoredLinesChangeNothing, Patch.LineCount and Patch.AddOnlyAppends |
| Patch.ApplyDiffSpec | main.ts:68-87 | definition, no contract: split, apply, join; Patch.ApplyDiff is proved equal to it, and its properties are Patch.EmptyDiff, Patch.TrailingNewline, Patch.AddLine, Patch.RemoveMissingLine and Patch.RemovePresentLine |
| Patch.ApplyDiff | main.ts:68-87 | the push/splice loop over the patch lines returns exactly the joined result of applying every patch line in order to the split original |
| Patch.RemoveAbsent | main.ts:79-80 | a `-` line whose text equals no line leaves the lines unchanged |
| Patch.RemoveAtFirst | main.ts:79-81 | a `-` line deletes exactly the line at the lowest index holding its text |
| Patch.RemoveFirstMatch | main.ts:78-82 | a `-` line with no match changes nothing; with a match it deletes exactly the lowest-index equal line, shortens by one, removes one copy from the multiset, and keeps all other lines in order |
| Patch.AddAppends | main.ts:76-77 | a `+` line appends everything after the `+` as the new last line |
| Patch.ApplyConcat | main.ts:72-84 | applying two patches one after the other equals applying their concatenation, so lines take effect strictly in patch order |
| Patch.IgnoredLinesChangeNothing | main.ts:73-84 | patch lines whose first character is neither `+` nor `-` leave the lines untouched |
| Patch.LineCount | main.ts:72-84 | the result has the original count, plus one per `+` line, minus one per `-` line that found a match; at most every `-` line matches |
| Patch.AddOnlyAppends | main.ts:76-77 | a patch without `-` lines appends the texts of its `+` lines, in order, after the original lines |
| Patch.AddOnlyTwice | main.ts:76-77 | a patch without `-` lines applied twice appends its lines twice, so it is not idempotent when it adds anything |
| Patch.AddThenRemoveAbsent | main.ts:72-84 | `+t` then `-t` on lines without `t` deletes the appended line again and returns the original lines |
| Patch.AddThenRemoveFirst | main.ts:72-84 | `+t` then `-t` deletes the first original `t`, keeps the appended `t` last, and keeps every other line in order |
| Patch.EmptyDiff | main.ts:68-87 | an empty patch returns the original text unchanged |
| Patch.TrailingNewline | main.ts:70-75 | a trailing line break in the patch changes nothing, because its empty last line is ignored |
| Patch.AddLine | main.ts:73-77 | a patch `"+" + l` returns the text followed by a line break and `l`, so its lines are the original lines with `l` appended |
| Patch.RemoveMissingLine | main.ts:78-82 | a patch `"-" + l` returns the text unchanged when no line equals `l` |
| Patch.RemovePresentLine | main.ts:78-82 | a patch `"-" + l` returns the join of the original lines without the first line that equals `l` |
| Patch.AddOnlyDiffTwice | main.ts:76-77 | applying the same add-only patch text twice yields the original lines followed by the added lines twice |
| Patch.NotIdempotentExample | main.ts:68-87 | "a" patched with "+b" is "a\nb" and patched again is "a\nb\nb" |
| Materialize.Truthy | main.ts:107-110 | definition, no contract: JavaScript truthiness of an optional string, present and non-empty |
| Materialize.SaveEntry | main.ts:107-115 | definition, no contract: the effect of one entry; its properties are Materialize.DispatchRule and Materialize.CreateThenPatch |
| Materialize.SaveAll | main.ts:101-116 | definition, no contract: the entries in order, stopping at the first error; Materialize.Dist.SaveCodeFiles is proved equal to it, and its properties are the lemmas below |
| Materialize.Dist.SaveCodeFiles | main.ts:100-117 | after the loop, the file map and the reported error are exactly those of handling every entry in order and stopping at the first missing patch target |
| Materialize.DispatchRule | main.ts:107-115 | a truthy `code` overwrites the file whatever `diff` says; an entry with neither writes nothing; a patch of a missing file is an error and writes nothing; a patch of an existing file writes the patched content |
| Materialize.SkippedEntriesChangeNothing | main.ts:107-115 | entries without truthy `code` or `diff` leave the file map unchanged and raise no error |
| Materialize.OtherPathsUntouched | main.ts:101-115 | a path that no entry names keeps its content, or stays absent |
| Materialize.PathsAfterSave | main.ts:101-115 | no file is deleted, and the only new paths are paths named by entries |
| Materialize.SaveConcat | main.ts:101-116 | handling two batches in turn equals handling their concatenation, and an error in the first batch skips the second |
| Materialize.CreateThenPatch | main.ts:101-115 | a patch entry sees a file written by an earlier entry of the same batch, so create then patch writes the patched body and raises no error |
| Materialize.ErrorIsMissingPatchTarget | main.ts:101-113 | an error comes from the first failing entry, a patch entry whose file is absent; the error names its path, and the files left behind are exactly those written by the entries before it |
| Materialize.PatchTargetsPresentMeansSuccess | main.ts:110-113 | if every patch entry's file already exists, the batch raises no error |
| Prompt.ContextLine | main.ts:37 | definition, no contract: the `filepath: summary` line of one file; its properties are Prompt.ContextLineNoNewline and Prompt.ListingLines |
| Prompt.ContextLineNoNewline | main.ts:37 | the line of a file whose path and summary hold no line break holds none either |
| Prompt.ContextListing | main.ts:36-39 | the listing is empty exactly when no file is known |
| Prompt.ListingLines | main.ts:36-39 | read back line by line, the listing gives each known file's `filepath: summary` line in order, when no path or summary holds a line break |

## Left out

- chatgpt.ts and the `chatGPT` call: an HTTP client with network I/O and environment-based authentication.
- `getUserInput`, `confirm`, `prompt` and the `main` loop (main.ts:6-16, 119-136): interactive console I/O.
- The TOML decoding at main.ts:64: a call into a library whose grammar is not part of this model. Entries arrive as already-decoded `CodeEntry` values.
- `ensureDir` and the directory creation it does for every entry, matched or not (main.ts:88-98, 106): filesystem side effects outside the file map.
- `path.join` and `path.dirname` (main.ts:102-103): the file map is keyed by the raw `filepath`, without the `dist/` prefix and without path normalisation.
- The `console.log` messages (main.ts:62, 109, 114): output only.
- The rest of the prompt template (main.ts:30-60), including the `specs.join("\n")` line: fixed prose around the context listing.
- Build verification, parse and build repair loops, and a registry that deduplicates known files: none of these appears in the source.
- Characters: JavaScript strings are UTF-16 code units and Dafny strings hold Unicode scalar values. The only characters the code compares against (`+`, `-` and the line feed) are ASCII, so splitting and classification agree.
- Materialize.SaveEntry: read and write failures other than a missing patch target (a path under an existing file, a directory at the path, missing permissions) are not modelled; the keys of the file map are independent of each other.
