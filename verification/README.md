# Manuscripts: a Dafny model of the writing app and its submission servers

Manuscripts is a terminal writing app for student papers. It keeps a list
of bibliographic sources per project, formats them as Chicago/Turabian
footnotes and bibliography entries, reads a `---`-fenced front-matter
header from the manuscript, and exports through pandoc and LibreOffice.
Two small web servers sit beside it. The receiver runs in a tray icon and
takes password-guarded submissions. The teacher's dashboard takes
submissions without a password and opens saved files. Each server saves
a file under a cleaned, collision-free name in the day's folder. It then
announces the file to the connected dashboards over server-sent events.

The model is pure Dafny: immutable datatypes and functions, plus a few
methods with loops. The modules follow the program's structure:

| module | file | what it models |
|---|---|---|
| `Opt`, `Text` | text.dfy | `Option`; Python string operations (`strip`, `split`, `join`, `replace`, `str(int)`, `\s`) |
| `Citation` | citation.dfy | the `Source` record, author reordering, citation keys, footnotes, bibliography entries |
| `Sources` | sources.dfy | the project's source list: add, remove, import with duplicate skipping |
| `Frontmatter` | frontmatter.dfy | reading front matter; inserting the missing properties |
| `Naming` | naming.dfy | the `[\w\s-]` cleaning, `PurePath.stem`/`suffix`, and the search for a free file name |
| `Export` | export.dfy | the Lua filter choice, the reference document, DOCX post-processing, the export file name, one export run |
| `Sse` | sse.dfy | the SSE registry both servers keep, event frames, the `/events` stream's arrival and departure |
| `Submission` | submission.dfy | reading the multipart form, field defaults, cleaned name parts, replies |
| `Receiver` | receiver.dfy | the receiver's `/submit` (password gate, `surname-title` names, counter) and its tray label |
| `Teacher` | teacher.dfy | the teacher's `/submit` (`student - title` names) and `/open` |

Everything outside the program becomes a parameter:
- the clock reading (`stamp`, `time`);
- the `\w` character class (`isWord`);
- the JSON encoder (`encode`);
- the directory listing and existing files (`refs`, `files`, `existing`);
- the outcome of each external tool (`World`).

The model treats each of these as exact and settled for the whole
operation: a file name is either in `files` or not, compared character by
character, and nothing changes between two steps. "## Left out" names
where the real program can differ from that.

## Model

| member | source | states |
|---|---|---|
| Citation.AuthorFirst | manuscripts.py:180-187 | a name without a comma is returned unchanged |
| Citation.AuthorLast | manuscripts.py:189-197 | a name with a comma or without a space is unchanged; otherwise one character longer (", " replaces one space) |
| Citation.AuthorFirstSplits | manuscripts.py:180-187 | for any name with a comma: the stripped text after the first comma, a space, then the stripped text before it |
| Citation.AuthorLastSplits | manuscripts.py:189-197 | for any comma-free name with a space: the text after the last space, ", ", then everything before that space |
| Citation.AuthorLastUndoesAuthorFirst | manuscripts.py:180-197 | for "Last, First", the bibliography order of the footnote order gives back "Last, First" |
| Citation.AuthorFirstUndoesAuthorLast | manuscripts.py:180-197 | for "First Last", the footnote order of the bibliography order gives back "First Last" |
| Citation.KeyLettersOf | manuscripts.py:84-85 | lower-casing and dropping non a-z never lengthens the text and leaves only a-z |
| Citation.Citekey | manuscripts.py:83-85 | the key is absent exactly when the text before the comma is blank (the source raises); otherwise it is a-z letters followed by the year, at most as long as the surname; "unknown"+year for an empty author |
| Citation.CitekeyOfNatural | manuscripts.py:83-85 | for "Given Names Surname" without a comma and with an ASCII surname, the key is the lower-cased surname plus the year |
| Citation.CitekeyOfSurname | manuscripts.py:83-85 | for "Surname, Given" with an ASCII surname the key is the lower-cased surname plus the year, whatever the given names |
| Citation.Footnote | manuscripts.py:87-133 | every footnote starts with the footnote-ordered author and ", " and ends with "."; a website footnote never ends in ",." |
| Citation.FootnoteIgnoresPageWhenStored | manuscripts.py:98-124 | for articles and chapters a stored page range overrides the page argument |
| Citation.FootnotePageInsertedBeforePeriod | manuscripts.py:87-124 | a page argument adds exactly ", page" (": page" for articles) before the final period of the page-less footnote |
| Citation.PrintedPartsDecide | manuscripts.py:87-176 | two records that agree on every printed field have the same footnote and bibliography entry |
| Citation.IssueNeedsVolume | manuscripts.py:100-103 | without a volume the issue changes neither the footnote nor the entry |
| Citation.CityNeverPrinted | manuscripts.py:87-176 | the city is never printed in either form |
| Citation.ArticleFootnoteCitesIssue | manuscripts.py:98-103 | an article with volume and issue cites " volume, no. issue" |
| Citation.WebsiteEntry | manuscripts.py:167-175 | a website entry ends with "." when a site, access date or URL is set, with `."` otherwise |
| Citation.EntryRest | manuscripts.py:135-176 | every non-website entry ends with "." |
| Citation.Bibliography | manuscripts.py:135-176 | every entry starts with the bibliography-ordered author and "."; it ends in "." except a bare website entry, which ends in `."` |
| Citation.BookSectionPagesThenPublisher | manuscripts.py:155-166 | a chapter entry ends ", pages. Publisher, Year." |
| Citation.ArticleFootnoteMatchesEntry | manuscripts.py:98-154 | an article's footnote and entry share everything after the title and differ only in name order and punctuation |
| Citation.BookFootnoteWithPublisher | manuscripts.py:89-97 | a book with a publisher is cited "First Last, *Title* (Publisher, Year)." |
| Sources.AddSource | manuscripts.py:220-221 | the record is appended at the end; the earlier records and the rest of the project are unchanged |
| Sources.WithoutId | manuscripts.py:224 | the kept records are exactly those whose id differs |
| Sources.WithoutIdCounts | manuscripts.py:224 | every record whose id differs is kept as often as the list holds it |
| Sources.WithoutIdSubsequence | manuscripts.py:224 | the kept records keep their order: the result is a subsequence of the list |
| Sources.WithoutIdDetermined | manuscripts.py:224 | any subsequence without the id that keeps every other record as often as the list holds it is the result, so order, multiplicity and membership fix it |
| Sources.WithoutIdAppend | manuscripts.py:224 | filtering a concatenation is concatenating the filtered parts |
| Sources.RemoveSource | manuscripts.py:223-224 | every record with the id goes; all others stay, in their display order and as often as before; an id nobody has changes nothing |
| Sources.RemoveUndoesAdd | manuscripts.py:220-224 | removing a just-added record's id equals removing that id before adding |
| Sources.RemoveIdempotent | manuscripts.py:223-224 | removing twice is removing once |
| Sources.Keys | manuscripts.py:2122 | the key set holds exactly the (author, title, year) triples of the records |
| Sources.ImportSources | manuscripts.py:2118-2137 | an empty offer changes nothing and says nothing; otherwise the old records stay as a prefix, the appended records equal the reference walk `Imported`, and the message counts the added and skipped records |
| Sources.ImportLoop | manuscripts.py:2122-2129 | the loop over the offered records adds exactly the records of the reference walk `Imported`, in order, with their new ids |
| Sources.ImportedFresh | manuscripts.py:2124-2129 | every imported record has a key unknown before, and the ids are numbered consecutively from 0 |
| Sources.ImportedDistinct | manuscripts.py:2124-2129 | no two imported records share a key, even when the offer repeats one |
| Sources.ImportedCovers | manuscripts.py:2124-2129 | after an import every offered key is known |
| Sources.ReimportAddsNothing | manuscripts.py:2118-2129 | importing the same offer a second time adds nothing |
| Sources.ImportIdsDistinct | manuscripts.py:2126 | with fixed-width time stamps, different counters give different ids |
| Frontmatter.FindFrom | manuscripts.py:285 | the lazy group stops at the first occurrence at or after the start |
| Frontmatter.FenceEnd | manuscripts.py:285 | front matter exists exactly when the text opens with `---\n` and a later `\n---` exists; the body ends at the first such fence |
| Frontmatter.Body | manuscripts.py:285-289 | the body is the text between the opening fence and the first closing fence |
| Frontmatter.KeyOf | manuscripts.py:290-292 | a line defines a key exactly when it has a colon that is not its first character |
| Frontmatter.LineEntry | manuscripts.py:289-297 | a line `k:v` with a colon-free, non-empty key part defines the stripped key with the stripped, unquoted value; later colons stay in the value |
| Frontmatter.Unquote | manuscripts.py:295-296 | one pair of matching quotes is removed and nothing else changes |
| Frontmatter.ParseFrontmatter | manuscripts.py:283-298 | text without fenced front matter gives an empty dict |
| Frontmatter.ParseLinesHasKey | manuscripts.py:289-297 | every key-defining line's key is in the dict |
| Frontmatter.ParseLinesLastWins | manuscripts.py:289-297 | a key's value comes from the last line defining it |
| Frontmatter.ParseLinesOnlyDefined | manuscripts.py:289-297 | every key in the dict is defined by some line |
| Frontmatter.Missing | manuscripts.py:1620 | the missing properties are exactly the offered ones not already present |
| Frontmatter.MissingCounts | manuscripts.py:1620 | every absent property is listed as often as the offered list holds it |
| Frontmatter.MissingSubsequence | manuscripts.py:1620 | the missing properties keep the offered order, so the inserted lines follow the property list |
| Frontmatter.MissingDetermined | manuscripts.py:1620 | any subsequence of the offered list without present properties that lists every absent one as often is the result |
| Frontmatter.InsertIntoExisting | manuscripts.py:1614-1626 | with front matter, the command does nothing exactly when nothing is missing; otherwise the result parses to the old dict plus the missing properties, empty |
| Frontmatter.InsertFresh | manuscripts.py:1627-1629 | without front matter the result parses to every property, empty |
| Frontmatter.InsertFrontmatterCompletes | manuscripts.py:1609-1632 | afterwards every property is a key, old values are kept and added ones are empty; nothing happens exactly when all are already present |
| Export.FilterFor | manuscripts.py:802-808 | Chicago gets the cover page; the running header is chosen exactly when the headers survive post-processing |
| Export.LeastDocx | manuscripts.py:314-316 | the first `.docx` in sorted order: present in the listing and no greater than any other `.docx` name |
| Export.ResolveReferenceDoc | manuscripts.py:301-317 | no directory gives nothing; a result is always a `.docx` in the listing |
| Export.ResolvePreference | manuscripts.py:306-317 | the `spacing:` file wins, then `double.docx`, then the least `.docx`; nothing only when there is no `.docx` |
| Export.ResolveIgnoresListingOrder | manuscripts.py:314 | listings holding the same names resolve alike |
| Export.NumberedPartsRecognised | manuscripts.py:850-851 | `word/headerN.xml` is a header and not a footer, and `word/footerN.xml` the reverse |
| Export.Lastname | manuscripts.py:839-842 | `lastname:` wins; otherwise the last word of `author:`; empty exactly when both are missing or blank |
| Text.ReplaceAbsent | manuscripts.py:861-865 | replacing a pattern that does not occur leaves the text as it is |
| Export.Substitute | manuscripts.py:858-864 | text without the placeholder is unchanged |
| Export.FillSpaced | manuscripts.py:858-864 | a placeholder and its space become the surname and the space, or vanish with the space when there is no surname |
| Export.FillAtEnd | manuscripts.py:858-864 | a trailing placeholder becomes the surname |
| Export.Postprocess | manuscripts.py:833-870 | each member keeps its name and place; non-header/footer members are untouched; headers are emptied unless MLA, footers only for MLA, and the rest get the surname |
| Export.SafeName | manuscripts.py:1651 | the export name is non-empty, at most 50 characters and space-free; "export" when cleaning leaves nothing |
| Export.SafeNameChars | manuscripts.py:1651 | the name holds only `[\w\s-]` characters and `_` |
| Export.SafeNameKeepsClean | manuscripts.py:1651 | a short name made only of word characters and `-` is used as it is |
| Export.NamesForDistinguished | manuscripts.py:1697-1700 | each file of a run ends with its own extension |
| Export.PandocOptions | manuscripts.py:1712-1722 | the options end with `-o` and the output; `--citeproc` appears exactly when asked for |
| Export.PandocArgs | manuscripts.py:1712-1722 | the command starts with the tool and the Markdown file, ends with `-o docx`, and has `--citeproc` exactly when the front matter has `bibliography` |
| Export.Preflight | manuscripts.py:1664-1694 | a run proceeds exactly when pandoc is found, LibreOffice too for PDF, and a reference document resolves; a halt is a warning or an error |
| Export.Finish | manuscripts.py:1745-1769 | LibreOffice runs only for PDF; the target exists exactly for DOCX or a clean LibreOffice exit, which alone adds the PDF; the last note is the success message exactly then |
| Export.Convert | manuscripts.py:1697-1791 | the Markdown and filter files are written; the archive exists and is post-processed exactly when pandoc succeeds; what is kept is what was written minus the clean-up list; the folder afterwards is what was there plus what was written, minus the clean-up list; the output is kept exactly when every tool succeeds |
| Export.WriteMarkdown | manuscripts.py:1653-1658 | the text goes to the `.md` output, which is the only file written and is kept, with the success note; the folder gains that file |
| Export.Halted | manuscripts.py:1664-1694 | a stopped run writes nothing, runs nothing, leaves the folder as it was and ends with its warning or error |
| Export.Export | manuscripts.py:1647-1791 | every run ends with one note and keeps at most its target; it ends with success exactly when the target is kept; Markdown keeps what it wrote, DOCX and PDF keep what they wrote minus the clean-up list; the folder afterwards follows the same rule over what was already there; the pandoc command and the post-processed archive are as above |
| Export.RunExport | manuscripts.py:1648-1651 | a run keeps at most the file named after the cleaned project name with the format's extension |
| Export.HaltedWritesNothing | manuscripts.py:1653-1694 | a run writes no file exactly when it is DOCX or PDF and stops before the temporary files; Markdown writes only its output |
| Export.IntermediatesRemoved | manuscripts.py:1697-1791 | a run past the checks writes the Markdown and filter files and never keeps them; the archive is written exactly when pandoc succeeds and is kept exactly for DOCX |
| Export.CleanupRemovesEarlier | manuscripts.py:1781-1791 | after a run past the checks the folder holds no Markdown or filter file of that name, and after PDF no archive of that name, even one an earlier DOCX export left and even when pandoc fails |
| Export.DiskChanges | manuscripts.py:1647-1791 | a run adds at most its target to the folder and removes only clean-up files; a stopped run changes nothing; a successful run leaves its target |
| Export.ExportSucceedsExactly | manuscripts.py:1653-1769 | the target is produced exactly when every step it needs succeeds |
| Export.DocxIgnoresOffice | manuscripts.py:1676-1685 | two worlds that differ only in what they say about LibreOffice give the same DOCX export |
| Naming.Cleaned | manuscripts-receiver/receiver.py:639 | the cleaned text holds only `[\w\s-]` characters and has no whitespace at either end |
| Naming.Suffix | manuscripts-receiver/receiver.py:642 | the suffix is empty or a dotted tail of the name, shorter than the name |
| Naming.Stem | manuscripts-receiver/receiver.py:642 | the stem followed by the suffix is the name |
| Naming.SplitExtension | manuscripts-receiver/receiver.py:640-642 | a dot-free base plus an extension splits back into the base and the extension |
| Naming.CandidatesSize | manuscripts-receiver/receiver.py:644 | the numbered candidates are all different |
| Naming.FreeName | manuscripts-receiver/receiver.py:640-646 | the name found is not taken: the wanted name when free, otherwise `stem (i)suffix` for the least free i from 2 |
| Naming.FreeForUnique | manuscripts-teacher/teacher.py:362-367 | only one name meets that rule |
| Naming.SaveNeverOverwrites | manuscripts-receiver/receiver.py:641-647 | saving under the found name adds a file and keeps every existing file unchanged |
| Sse.Connect | manuscripts-receiver/receiver.py:528-531 | a new empty queue is appended under an id not yet in use; the count grows by one |
| Sse.Find | manuscripts-receiver/receiver.py:535 | the first queue with the id, or none when no queue has it |
| Sse.Disconnect | manuscripts-receiver/receiver.py:533-537 | an unknown queue changes nothing; a known one lowers the count by one |
| Sse.DisconnectValid | manuscripts-receiver/receiver.py:533-537 | the registry stays valid, the queue is gone, and every other queue stays, in order |
| Sse.DisconnectUndoesConnect | manuscripts-receiver/receiver.py:528-537 | connecting then disconnecting the new queue gives back the same queues |
| Sse.ParseFrame | manuscripts-receiver/receiver.py:543 | a parsed event name holds no line break |
| Sse.ParseFrameRoundTrip | manuscripts-receiver/receiver.py:543 | a frame whose event name has no line break reads back as the event and data sent |
| Sse.Broadcast | manuscripts-receiver/receiver.py:539-547 | every queue receives the frame at its end; no queue is added or dropped |
| Sse.BroadcastValid | manuscripts-teacher/teacher.py:283-291 | broadcasting keeps the registry valid |
| Sse.Open | manuscripts-receiver/receiver.py:576-586 | on arrival the count grows by one and the newcomer is greeted with the new count |
| Sse.OpenAnnounces | manuscripts-teacher/teacher.py:304-316 | every earlier dashboard gets exactly one count frame; the newcomer's queue starts with that frame too |
| Sse.Close | manuscripts-receiver/receiver.py:596-598 | on departure the dashboard is gone and a connected one lowers the count by one |
| Sse.OpenCloseCount | manuscripts-receiver/receiver.py:576-598 | a dashboard that comes and goes leaves the count where it was |
| Submission.ExtTextShape | manuscripts-receiver/receiver.py:611-623 | both extensions are a dot and a dot-free tail |
| Submission.ReadForm | manuscripts-receiver/receiver.py:614-625 | the read student, title and password have no whitespace at either end |
| Submission.LastOf | manuscripts-receiver/receiver.py:614-625 | the last part with the given name, or none when no part has it |
| Submission.CollectLastWins | manuscripts-receiver/receiver.py:614-625 | each field is the value of the last part with its name |
| Submission.ReadFormLastWins | manuscripts-teacher/teacher.py:337-346 | each field comes from the last part with its name; text fields are stripped, the file is kept as sent; a missing part leaves the field empty; the teacher never reads a password |
| Submission.ReadFormExtension | manuscripts-receiver/receiver.py:619-623 | the extension is `.md` exactly when some file part's content type names markdown or plain text |
| Submission.Student | manuscripts-receiver/receiver.py:630 | the student is never empty, and a given name is kept |
| Submission.Title | manuscripts-receiver/receiver.py:631 | the title is never empty, and a given title is kept |
| Submission.StudentNotBlank | manuscripts-receiver/receiver.py:630-637 | a defaulted student read from the form is never blank, so the "Unknown" surname branch is only reached for blank input |
| Submission.SafePart | manuscripts-teacher/teacher.py:360-361 | a cleaned part is at most n characters of `[\w\s-]` and does not start with whitespace |
| Submission.SafePartKeepsClean | manuscripts-teacher/teacher.py:360-361 | a part that is already clean, stripped and short enough is kept as it is |
| Submission.SafePartNoDot | manuscripts-receiver/receiver.py:639 | when `\w` excludes the dot, a cleaned part has no dot |
| Receiver.CountLabelInjective | manuscripts-receiver/receiver.py:419-421 | different counts never share a label |
| Receiver.CountLabelReadsBack | manuscripts-receiver/receiver.py:419-421 | the label starts with a non-empty run of digits, ended by its first space, that reads back as the count |
| Receiver.OnSubmission | manuscripts-receiver/receiver.py:517-519 | the count grows by one and nothing else changes |
| Receiver.LastName | manuscripts-receiver/receiver.py:637 | a student who is not blank gives a single whitespace-free word |
| Receiver.SafeLast | manuscripts-receiver/receiver.py:638 | the surname is at most 30 characters, all word characters or `-` |
| Receiver.SafeLastNoDot | manuscripts-receiver/receiver.py:638 | when `\w` excludes the dot, the surname has no dot |
| Receiver.WantedNameSplits | manuscripts-receiver/receiver.py:640-642 | the wanted name's stem is `surname-title` and its suffix is the extension, so collisions number the title part |
| Receiver.Submit | manuscripts-receiver/receiver.py:602-660 | refusal with 401 happens exactly when a password is set and not matched, and then nothing changes; every accepted submission is saved: the file is stored under the free name, the count grows by one, and the dashboards get the submission record with the stored path |
| Teacher.WantedNameSplits | manuscripts-teacher/teacher.py:360-364 | the wanted name's stem is `student - title` and its suffix is the extension |
| Teacher.Submit | manuscripts-teacher/teacher.py:333-381 | every submission is saved; the file is stored under the free name, and the dashboards get the record with the stored path |
| Teacher.OpenFileAsWritten | manuscripts-teacher/teacher.py:384-403 | a file is launched exactly when its path starts with the folder's path text and it exists; otherwise 403, or 404 when missing |
| Teacher.SiblingOpensAsWritten | manuscripts-teacher/teacher.py:391 | a file in a sibling folder whose name extends the submissions folder's passes the guard although it is outside the folder |
| Teacher.OpenFile | manuscripts-teacher/teacher.py:384-403 | with the intended guard a file is launched exactly when it lies inside the folder and exists; 403 exactly for paths outside |
| Teacher.OpenNarrowsAsWritten | manuscripts-teacher/teacher.py:391-392 | whatever the corrected guard opens, the written one opens; whatever the written one forbids, the corrected one forbids |
| Teacher.SavedFilesOpen | manuscripts-teacher/teacher.py:357-403 | every file the server saves in a day folder opens under the corrected guard |

## Left out

- The terminal UI, the editor, key bindings, the fuzzy filters, printing, and storage of projects on disk are left out; they are presentation and I/O.
- The Lua filter texts are left out. The model only chooses which filter runs (`FilterFor`).
- `parse_bibtex`, the icon builder, mDNS advertisement, and the password and tray dialogs are left out; they are outside the modelled core.
- Files, zip archives, subprocesses and the clock are left out as actions. Their results are parameters: the `World` of an export run, the `files` map of a server, and the `stamp`/`time` readings.
- Export: an exception during a run ("Export failed: …") and a failing post-processing step are not modelled. The source swallows the latter. The model post-processes the archive pandoc wrote.
- Export: a failed pandoc run is taken to leave no DOCX behind. The model does not track a partial output that a failing tool might leave.
- Export.Convert: each removal of the clean-up list is taken to succeed. The source ignores an `OSError` from `unlink` (manuscripts.py:1786-1791), which would leave that file in the folder.
- Export.Postprocess: members are text. UTF-8 decoding and the byte form of the archive are not modelled.
- `Project.get_sources` dropping malformed stored records is not modelled. Sources are typed records here.
- Receiver.Submit and Teacher.Submit: the 500 reply for an unexpected exception is not modelled. That covers a malformed body, a failed write, or an undecodable field. UTF-8 decoding with replacement is not modelled; parts are text as received.
- Receiver.Submit and Teacher.Submit: JSON encoding is the parameter `encode`. Creating the day's folder and reading the clock are not modelled. `dir` is the folder's path and `time` the `%H:%M` reading.
- Sse.Broadcast: the dead-queue branch is not modelled, because an unbounded `asyncio.Queue` never refuses `put_nowait`.
- Export.ResolveReferenceDoc: the `spacing:` value is taken to be a plain file name in the refs folder and is looked up in the folder's listing. The source joins it to the folder path and tests `exists()` (manuscripts.py:306-308), so a value such as `../mine` or `sub/x` can name a file outside the listing; that is not modelled.
- Naming.FreeName: names are compared exactly. `dest.exists()` (manuscripts-receiver/receiver.py:641-645, manuscripts-teacher/teacher.py:363-367) asks the filesystem, which is case-insensitive by default on macOS and Windows, so there a name differing only in case is also taken. The same holds for the existence test of `/open` (manuscripts-teacher/teacher.py:397). The model does not promise the saved name is free under such a comparison.
- Sources.WithoutId: its own contract states which records stay. Their order and multiplicity are stated by `WithoutIdCounts` and `WithoutIdSubsequence`, and `WithoutIdDetermined` shows the three fix the result; they are kept out of the function's contract so that every proof mentioning the filter does not carry them. `RemoveSource` states all three.
- Frontmatter.Missing: its own contract states which properties are listed. Their order and multiplicity are stated by `MissingCounts` and `MissingSubsequence`, and `MissingDetermined` shows the three fix the result, for the same reason.
- Sse.Open: arrival is one atomic step. `handle_events` (manuscripts-receiver/receiver.py:576-586) awaits between registering the queue, greeting the newcomer and broadcasting the count, so other events can interleave; and a failure in `resp.prepare` or the greeting, which come before the `try`, leaves the queue registered. Neither is modelled.
- Sse.Open and Sse.Close: the keepalive loop and the wait for queued frames are not modelled. Only arrival and departure change the registry.
- `\w` is the parameter `isWord`; Unicode's word-character table is not written out. `\d` in the header and footer pattern is taken to be the ASCII digits.
- Teacher.OpenFileAsWritten: `Path.resolve` is not modelled. `dest` and `allowed` are the resolved paths, and launching the viewer is left out.
- Citation.KeyLettersOf: `str.lower` is modelled only for the characters whose lower case contains a letter a-z. Those are A-Z, KELVIN SIGN and LATIN CAPITAL LETTER I WITH DOT ABOVE. Other characters vanish under the a-z filter either way.

Three behaviours of the code worth noting; the model follows the code:
- The closing front-matter fence is any line starting with `---`, so `----` or `--- notes` also closes the header.
- Citation keys are not injective. Surnames that differ only outside a-z ("O'Brien" and "OBrien") share a key.
- The book-footnote test at test_write.py:35 expects the city ("New York: Scribner, 1925"). The code prints "(Scribner, 1925)" and never prints the city (`Citation.CityNeverPrinted`, `Citation.BookFootnoteWithPublisher`).

## Findings

| source | as written | input that shows it | evidently intended | confidence | as-written member | corrected member |
|---|---|---|---|---|---|---|
| manuscripts-teacher/teacher.py:391 | `/open` allows any path whose text starts with the submissions folder's path | `allowed + "2/notes.txt"`, a file in a sibling folder such as `Submissions2`, is launched | only the folder itself and paths below `allowed + "/"` are allowed | not executed | Teacher.OpenFileAsWritten, Teacher.SiblingOpensAsWritten | Teacher.OpenFile, Teacher.OpenNarrowsAsWritten |
