# Jump to Sass definition — a Dafny model

This project models the core of the VS Code extension "jump-to-sass-definition"
(`src/extension.ts`). When the user asks for the definition of a Sass variable
such as `$color`, the extension does the following:

- It lists the workspace's `.scss`/`.sass` files and splits them into two groups:
  - "near" files, which share the edited file's top-level directory;
  - "far" files, which are every other file.
- It scans the near files first, then the far files in chunks of 20.
  - With `showAllReferences` on, the chunk size changes nothing.
  - With it off, the loop stops after the chunk that holds the first declaring far file, so the size is observable when a far file cannot be read. An unreadable file in a later chunk is never read, while one in the same chunk fails the query.
- Each file is scanned line by line. A line counts as a declaration when it is not blank, is not a `//` comment, and its trimmed text contains `$name:`. Only the first such line of a file counts.
- Each file's text comes from a cache. An entry is served as stored while it is younger than 5000 ms. The file watcher deletes a file's entry, and deactivation clears the whole cache.
- With `showAllReferences` off, the first declaration found wins. With it on, all declarations are collected, near ones first, and the user picks one.

The modules follow the structure of the source:

- `wrappers.dfy`: `Option` and `Result`.
- `text.dfy`: the JavaScript string operations the scanner uses:
  - `trim`;
  - `split` on one character;
  - `includes`, `indexOf` and `startsWith`;
  - the decimal rendering of the line number.
- `scanner.dfy`: `searchInFile` once a file's text is known.
- `content_cache.dfy`: the content cache: `getFileContent`, the watcher's `delete` and `deactivate`'s `clear`.
- `resolver.dfy`: the near/far partition, the batched and chunked scans, and `provideDefinition`.

The following are parameters of the model rather than behaviour inside it:

- The clock (`now`, one value per query).
- The files `openTextDocument` can read (`disk`, a map from path to text).
- The corpus (`files`, in the order `findFiles` returns them).
- The path separator (`sep`).
- The quick-pick choice (`pick`).

## Model

| member | source | states |
|---|---|---|
| Text.Trim | src/extension.ts:75 | the trimmed line is an unpadded infix of the line with only white space (ECMAScript white space and line terminators) on either side |
| Text.TrimCharacterised | src/extension.ts:75 | trimming has exactly one possible result: any unpadded infix surrounded by white space is the trimmed line |
| Text.TrimIdempotent | src/extension.ts:75 | trimming a trimmed line changes nothing |
| Text.TrimEmptyIffBlank | src/extension.ts:75-76 | the trimmed line is empty (the `!line` test) exactly when the raw line is all white space |
| Text.IndexOf | src/extension.ts:83 | `indexOf` is -1 exactly when the line does not include the name, otherwise the index of an occurrence with none before it |
| Text.ContainsPrefix | src/extension.ts:80-83 | a line that includes `name + ":"` includes `name` |
| Text.ContainsUntrimmed | src/extension.ts:75-83 | whatever the trimmed line includes, the untrimmed line includes, so the column found in the raw line is never -1 |
| Text.Split | src/extension.ts:72 | `split('\n')` yields at least one piece, no piece holds a line feed, and joining the pieces gives the text back |
| Text.SplitAppend | src/extension.ts:72 | splitting `a + "\n" + b` is splitting `a` followed by splitting `b` |
| Text.SplitWithoutSeparator | src/extension.ts:72 | text without a line feed is a single line |
| Text.SplitJoin | src/extension.ts:72 | splitting undoes joining lines that hold no line feed |
| Text.NatToDecimal | src/extension.ts:88 | `${i + 1}` is a non-empty digit string with no leading zero |
| Text.ParseNatToDecimal | src/extension.ts:88 | reading the rendered line number back gives the number |
| Scanner.FirstDeclaring | src/extension.ts:74-80 | the loop stops at the lowest-numbered line that is neither blank nor a comment and includes `name:`, or finds none |
| Scanner.SearchInFile | src/extension.ts:66-94 | the scan of one file's text. It carries no contract of its own; its contract is the lemma `SearchInFileReports` (next row), kept apart so that every proof mentioning a scan does not unfold the scanner's guarantees. |
| Scanner.SearchInFileReports | src/extension.ts:66-94 | `null` exactly when no line declares the name; otherwise the report is the first declaring line, the first column of the name in the raw line, and the label `relPath:lineNumber` |
| Scanner.ReportUnique | src/extension.ts:74-91 | the properties of a report pin it down: two reports that satisfy them are equal |
| Scanner.DescriptionLineNumber | src/extension.ts:85-88 | the label is `relPath`, a colon, and a numeral whose value is the 0-based index plus one |
| Scanner.LaterLinesIgnored | src/extension.ts:74-91 | lines after the first declaration never change the report |
| Scanner.ExtendedReport | src/extension.ts:74-91 | appending lines after a run of lines leaves its first declaration where it is |
| Scanner.ShiftedReport | src/extension.ts:74-91 | putting non-declaring lines in front moves the first declaration down by their number |
| Scanner.EarlierLinesShift | src/extension.ts:74-91 | text without a declaration in front of a file moves its report down by that text's line count and relabels it |
| Scanner.SingleLine | src/extension.ts:72 | a text without a line feed has itself as its only line |
| Scanner.TrimUnpadded | src/extension.ts:75 | a line without surrounding white space trims to itself |
| Scanner.CommentLineIgnored | src/extension.ts:75-78 | a line whose trimmed text starts with `//` never declares anything |
| Scanner.CommentedDeclarationIgnored | src/extension.ts:75-78 | `// $foo: red;` does not declare `$foo` |
| Scanner.DeclarationLineAtStart | src/extension.ts:80-89 | an unpadded line opening with `name:` is reported at line 0, column 0, labelled `relPath:1` |
| Scanner.DeclarationOnFirstLine | src/extension.ts:80-89 | `$color: red;` declares `$color` at line 0, column 0, labelled `relPath:1` |
| ContentCache.Get | src/extension.ts:51-63 | a fresh entry (age below 5000 ms) is served as stored with the cache unchanged. Otherwise the file is read and stamped with `now`, and the read fails exactly when the file cannot be opened. Either way, no other entry changes. |
| ContentCache.GetAgreesWithSeen | src/extension.ts:51-63 | a read returns what the cache-or-store view predicts, fails exactly when that view has nothing, and leaves the view unchanged |
| ContentCache.RereadWithinTtl | src/extension.ts:55-61 | text just read is served from the cache for the next 5000 ms even if the file changes on disk |
| ContentCache.StaleEntryReread | src/extension.ts:55-61 | an entry whose age has reached 5000 ms is read again |
| ContentCache.Delete | src/extension.ts:43-44 | the watcher removes exactly the changed or deleted file's entry |
| ContentCache.DeleteForcesRead | src/extension.ts:43-44 | after the watcher's delete the next read goes to disk, even within the time-to-live |
| ContentCache.Clear | src/extension.ts:231 | deactivation leaves no entry |
| ContentCache.ClearForcesRead | src/extension.ts:231 | after deactivation every read goes to disk |
| Resolver.TopLevelDir | src/extension.ts:139-140 | the top-level directory is a prefix of the relative path holding no separator, and it ends at the first separator or at the end of the path |
| Resolver.Near | src/extension.ts:143-147 | the near files are exactly the corpus files whose top-level directory is the edited file's |
| Resolver.Far | src/extension.ts:149 | the far files are exactly the corpus files whose top-level directory is not the edited file's |
| Resolver.SameTree | src/extension.ts:143-147 | the near files are exactly the corpus files whose top-level directory is the edited file's |
| Resolver.OtherFiles | src/extension.ts:149 | the far files are exactly the corpus files not among the near files |
| Resolver.PartitionExact | src/extension.ts:138-149 | the far files are the files outside the origin's tree. Each corpus file lands on exactly one side, repetitions included, and both sides keep corpus order. |
| Resolver.TreeSplitCounts | src/extension.ts:143-149 | the near and outside-tree files together are the corpus as a multiset |
| Resolver.TreeSplitOrdered | src/extension.ts:143-149 | both sides are subsequences of the corpus |
| Resolver.ScanFile | src/extension.ts:66-71 | scanning fails exactly when the file cannot be read, and otherwise reports what the file declares as the read sees it |
| Resolver.ScanFileFrame | src/extension.ts:51-71 | a scan changes no cache entry but the scanned file's own, and nothing a later read at the same instant sees |
| Resolver.ScanAll | src/extension.ts:152-156 | one result per file of the batch |
| Resolver.ScanAllFrame | src/extension.ts:152-156 | a batch changes only the cache entries of the files it scans |
| Resolver.ScanAllAgrees | src/extension.ts:152-161 | a batch succeeds exactly when every file is readable, and its non-null results are the files' declarations in order |
| Resolver.ScanAllAppend | src/extension.ts:152-156 | scanning `a + b` is scanning `a` then `b` on the cache `a` leaves |
| Resolver.Found | src/extension.ts:159-161 | the `if (result)` filter keeps at most one declaration per result, and keeps a declaration exactly when some result holds it |
| Resolver.FoundAppend | src/extension.ts:159-161 | the non-null filter distributes over concatenation |
| Resolver.DeclarationsAppend | src/extension.ts:159-161 | the declaration list of `a + b` is that of `a` followed by that of `b` |
| Resolver.DeclarationsRespectView | src/extension.ts:51-63 | caches that look the same to every read have the same readable files and the same declarations |
| Resolver.DeclarationsEmptyIff | src/extension.ts:159-161 | the declaration list is empty exactly when no file declares the name |
| Resolver.ScanChunks | src/extension.ts:169-188 | without `showAllReferences` a successful loop answers either with the list it was handed or with a single declaration. Which one, and which declaration, is fixed by `ChunkingTransparent`, `ChunkedFirstMatch` and `ChunkedFirstMatchPrefix`. |
| Resolver.ChunkingTransparent | src/extension.ts:170-188 | when collecting everything, chunking the far files (any chunk size) gives the result and cache of a single batch |
| Resolver.ChunkedFirstMatch | src/extension.ts:170-188 | when stopping at the first match and every far file is readable, the chunked loop answers with the first far declaration in corpus order, for any chunk size |
| Resolver.ChunkEnd | src/extension.ts:172-173 | the chunk holding position `j` ends after `j`, at most one chunk size later, and not past the end of the list |
| Resolver.ChunkEndValue | src/extension.ts:172-173 | the chunk holding position `j` ends at the first multiple of the chunk size above `j`, the first value of `i` past `j`, or at the end of the list when that multiple lies past it |
| Resolver.ChunkLength | src/extension.ts:173 | `slice(i, i + CHUNK_SIZE)` takes a full chunk, or every remaining file when fewer remain, and never nothing |
| Resolver.ChunkedFirstMatchPrefix | src/extension.ts:172-185 | when stopping at the first match, the answer is the first declaring file's declaration as soon as the files up to the end of its chunk are readable. Later chunks are never read. |
| Resolver.ChunkSizeObservable | src/extension.ts:172-185 | a declaring file followed by an unreadable one succeeds with chunks of one file and fails with chunks of two |
| Resolver.ChunkedFirstMatchShape | src/extension.ts:180-185 | when stopping at the first match, the chunked loop never answers with more than one declaration |
| Resolver.Resolve | src/extension.ts:138-201 | without `showAllReferences` a successful query yields at most one declaration |
| Resolver.NearMatchWins | src/extension.ts:159-166 | a near declaration wins with the first match and no far file is read |
| Resolver.FarFallback | src/extension.ts:168-201 | with no near declaration and every far file readable, the answer is the first far declaration in corpus order, or nothing |
| Resolver.FarFallbackPrefix | src/extension.ts:168-188 | with no near declaration, the answer is the first declaring far file's declaration as soon as the far files up to the end of its chunk of 20 are readable |
| Resolver.AllMatchesNearThenFar | src/extension.ts:159-188 | collecting everything yields every near declaration, then every far one, each in corpus order |
| Resolver.ReadableSides | src/extension.ts:143-149 | near and far files together are readable exactly when the corpus is |
| Resolver.AllMatchesEmptyIff | src/extension.ts:191-195 | the collected list is empty exactly when no corpus file declares the name |
| Resolver.UnreadableNearFails | src/extension.ts:152-156 | an unreadable near file fails the query under either policy |
| Resolver.UnreadableFailsAllMatches | src/extension.ts:152-188 | when collecting everything, any unreadable file fails the query |
| Resolver.ResolveKeepsView | src/extension.ts:51-63 | a query changes nothing that a read at the same instant observes |
| Resolver.ChunksKeepView | src/extension.ts:172-178 | the chunked loop changes nothing a read at the same instant observes |
| Resolver.ChunksRespectView | src/extension.ts:172-188 | caches that look the same to every read give the chunked loop the same outcome |
| Resolver.ResolveIdempotent | src/extension.ts:138-201 | asking again at the same instant, with the cache the first query left, gives the same declarations |
| Resolver.ProvideDefinition | src/extension.ts:191-225 | at most one location. Without `showAllReferences` a resolved declaration yields the first one's location. With it, the picked declaration's location is returned. A failed query, an empty list or a dismissed pick yields no location. |
| Resolver.NothingDeclaredNoLocation | src/extension.ts:191-195 | with every file readable and none declaring the name, no location is returned under either policy |
| Resolver.TopLevelDirIsSplitHead | src/extension.ts:140-146 | the top-level directory is the first piece of `relPath.split(path.sep)`, the text before the first separator |
| Resolver.TopLevelOfNested | src/extension.ts:140 | the top-level directory of `dir/rest` is `dir` |
| Resolver.SingleFileDeclarations | src/extension.ts:159-161 | a single file's declaration list is its report, if any |
| Resolver.NearTreeRankedFirst | src/extension.ts:138-188 | a corpus lists a file of another tree before a file of the edited file's tree. Collecting everything ranks the same-tree file's declaration (if any) before the other's, and when the same-tree file declares the name, the first-match policy returns that declaration alone. |

## Left out

- Registration of the definition and hover providers and of the file watcher is not modelled: it is editor wiring. The hover text is left out for the same reason.
- Word-range extraction (`/\$[\w-]+/`) and the `$` check are not modelled. The variable name is an input.
- Configuration reads are not modelled: `showAllReferences` is a boolean, and an unset value behaves as `false`.
- Console logging and the information and error messages are not modelled. A failed query answers with no location, as the `catch` does.
- The quick pick is not modelled as a dialog. The user's choice is the index `pick`, and `None` means it was dismissed.
- `findFiles`, with its include glob and `node_modules` exclusion, is not modelled. The corpus is an input sequence in the order it would return.
- `openTextDocument` is not modelled. It is the `disk` map, and a path outside the map cannot be read.
- `Date.now` is not modelled. One `now` serves a whole query, although the source reads the clock once per file.
- `path.relative` is not modelled: each file carries its workspace-relative path. `path.sep` is the parameter `sep`.
- `Promise.all` is modelled as a sequential, order-preserving scan within one query. `ResolveKeepsView` and `ScanAllAgrees` show that, within a query, read order does not change what any read observes. The model does not say which file failed when several fail. It also does not say what happens to reads still pending after a rejection (see `Resolver.Resolve` below).
- Interleaving is not modelled. Each query, each watcher `delete` and `deactivate`'s `clear` runs to completion before the next starts. In the source, `getFileContent` takes `now` (src/extension.ts:52) and then awaits `openTextDocument` (line 59). A watcher event or another query can run during that await.
- ContentCache.DeleteForcesRead: holds only when no read of that path is in flight across the delete. A read that took `now` before a watcher `delete` (lines 43-44) and completes after it stores its entry again with the earlier timestamp (line 61). The next read within 5000 ms of that timestamp is then served from the cache.
- Resolver.Resolve: after a failed query the model keeps the cache from before the query.
  - In the source, `Promise.all` does not cancel the other reads. Every read that completes is stored with its timestamp, whether it completes before or after the rejection.
  - A later query within the time-to-live serves that stored text, while the model reads the store again.
  - The two differ when the text `openTextDocument` returns changes within the time-to-live without a watcher event, for example through an unsaved edit in an open editor. `RereadWithinTtl` shows how a stored entry is served in that window.
- Scanner.SearchInFile: columns count Unicode scalar values, not UTF-16 code units. Lines holding characters outside the Basic Multilingual Plane before the name would be reported one column early per such character.
- A document outside any workspace folder is not modelled: the source answers `[]` before any scan.
- The cancellation token is not modelled: the source ignores it.
- Only what the code does is modelled. An unreadable file rejects the whole `Promise.all` batch it belongs to. Only lines containing `$name:` are recognised, so mixins and functions are not. Each file contributes at most its first declaration.
