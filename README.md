# Hosts file editor: verified model of the line processing

This project is a Dafny model of the logic behind the buttons of the Windows hosts-file editor
`hosts_editor.py`:

- the **Clean** processor. Each line becomes `0.0.0.0 <host>`, built from its last token before any
  `#`, with one leading `*.` removed. Repeats are dropped ignoring case, and the survivors are sorted.
- the **Deduplicate** processor. Blank and comment lines are always kept. Any other line is kept only
  when its stripped, lower-cased text is new.
- **keyword removal**. The search matches a keyword as a case-insensitive substring. The selection
  dialog then drops every line equal to a checked match.
- the **pfSense DNSBL log import**. Domains are taken from the third comma-separated field of
  `DNSBL-Full` records, collected as a set and sorted. They are appended under a separator comment.
- the **diff preview**. ndiff-style script lines become added, removed or unchanged rows, and `? `
  hint lines are dropped.
- the **review, load and save protocol**. This covers the text, the unsaved-changes flag, the open
  dialog and the files on disk.

The Python string operations the code relies on are written out in module `Text`:
- `strip()` and `split()` use the full `str.isspace` whitespace set;
- `split(sep)`, `split('#', 1)[0]`, `'\n'.join`, `startswith` and the `in` substring test follow
  Python's behaviour;
- `splitlines()` breaks on `'\n'` only (see "Left out" for the other line breaks Python knows).

Module `Sorting` gives Python's code-point order on strings and `sorted` as an insertion sort. It
proves the result sorted and a permutation, and proves that there is only one such result.

Clean and Deduplicate each have two parts:
- a specification function over prefixes of the input (`Clean`, `Dedup`);
- a method with the source's loop and `seen` set (`CleanLines`, `DedupLines`), proved equal to that
  function.

The properties are lemmas about the specification functions.

Deduplicate's properties are proved first for a first-occurrence filter over any key function
(`Filter`), and then read for the processor's own key, `KeyOf`. `KeyOf` gives no key for a structural
line, and otherwise the stripped, lower-cased text.

The editor window is class `Editor.HostsEditor`. Its methods change the fields the source changes.
Operator answers, the file chosen in the file dialog, the lines read from that file, and the diff
script are parameters. The files on disk are a `map` from path to content.

The model follows the code wherever the code and its documentation differ:
- Clean discards no loopback or `localhost` entries.
- Clean keeps the spelling of the first occurrence of each host.
- A line whose last token is the bare wildcard `*.` yields the entry `0.0.0.0 ` with an empty host
  (`AutoClean.BareWildcardLine`).
- Clean is idempotent only when no emitted host is empty or still starts with `*.`
  (`AutoClean.CleanIdempotent`). Both halves of the condition are needed:
  `AutoClean.SecondPassStripsAgain` shows a host that still starts with `*.` losing it on a second
  pass, and `AutoClean.EmptyHostSecondPass` shows the empty host of `*.` turning into
  `0.0.0.0 0.0.0.0` on a second pass.

## Model

| member | source | states |
|---|---|---|
| Text.Strip | hosts_editor.py:449 | `strip()` never lengthens a string, and its result is empty or starts and ends on a non-space character |
| Text.StripTrims | hosts_editor.py:449 | `strip()` gives the piece of the string between a whitespace-only prefix and a whitespace-only suffix |
| Text.StripEmptyIffBlank | hosts_editor.py:449-450 | `strip()` gives the empty string exactly when the string is whitespace only (the `if stripped` test) |
| Text.StripAvoids | hosts_editor.py:469 | `strip()` introduces no character that was not in its input |
| Text.StripUnchanged | hosts_editor.py:449 | a string that is empty or already starts and ends on non-space is unchanged by `strip()` |
| Text.IndexOf | hosts_editor.py:469 | the index found holds the first occurrence of the character, or is the length when there is none |
| Text.Contains | hosts_editor.py:366 | the `in` test finds only patterns no longer than the string, and always finds the empty pattern |
| Text.Before | hosts_editor.py:469 | `split('#', 1)[0]` is a prefix holding no `#`, followed in the line by `#` unless it is the whole line |
| Text.SplitOn | hosts_editor.py:364 | `split(',')` gives at least one field, and no field contains the separator |
| Text.SplitJoin | hosts_editor.py:364 | joining the fields of `split(sep)` with the separator gives the string back |
| Text.JoinWith | hosts_editor.py:278 | `sep.join` of no parts is empty, of one part is that part, and of more starts with the first part and a separator |
| Text.JoinSplit | hosts_editor.py:278 | splitting `sep.join(parts)` gives the parts back when no part holds the separator |
| Text.SplitLines | hosts_editor.py:273 | no line of `splitlines()` contains a line break |
| Text.SplitLinesTerminated | hosts_editor.py:273 | text followed by its closing newline splits into the pieces between its newlines |
| Text.SplitLinesOfWritten | hosts_editor.py:273-278 | non-empty lines joined with `'\n'` and closed by a newline read back as the same lines |
| Text.TokenEnd | hosts_editor.py:477 | the first token ends at the first whitespace character, or at the end of the string |
| Text.Words | hosts_editor.py:477 | `split()` gives non-empty tokens free of whitespace, and gives none exactly for a blank string |
| Text.LastWord | hosts_editor.py:477-478 | in a string ending on non-space, the last token of `split()` is a suffix of the string that is the whole string or follows whitespace |
| Text.EndsWithWordSuffix | hosts_editor.py:477-478 | a word at the end of a string is a suffix of that string |
| Text.WordsAvoid | hosts_editor.py:477 | a character absent from the string is absent from each of its tokens |
| Text.WordsOfToken | hosts_editor.py:477 | a token followed by nothing or by whitespace is the first word of `split()` |
| Text.Lower | hosts_editor.py:451 | `lower()` keeps the length and lower-cases each ASCII letter in place |
| Text.LowerKeepsClasses | hosts_editor.py:449-451 | lower-casing keeps a string blank, empty, or starting with `#` exactly when it was |
| Sorting.LexLeTotal | hosts_editor.py:494 | any two strings are ordered one way or the other |
| Sorting.LexLeAntisymmetric | hosts_editor.py:494 | two strings each ordered before the other are equal |
| Sorting.LexLeTransitive | hosts_editor.py:494 | the string order is transitive |
| Sorting.Insert | hosts_editor.py:494 | inserting into an ascending list keeps it ascending and adds exactly the one element |
| Sorting.Sort | hosts_editor.py:494 | `sorted` returns an ascending permutation of its input |
| Sorting.SortedUnique | hosts_editor.py:494 | two ascending lists with the same elements are equal, so `sorted` has only one possible result |
| Sorting.SortOfSorted | hosts_editor.py:494 | sorting an ascending list leaves it as it is |
| AutoClean.Payload | hosts_editor.py:469-472 | the text before the first `#`, stripped, holds no `#`, starts and ends on non-space, and is empty exactly when that text is blank |
| AutoClean.StripWildcard | hosts_editor.py:482-483 | the host is the token itself or the token less a leading `*.`, and is changed exactly when the token starts with `*.` |
| AutoClean.HostOf | hosts_editor.py:469-483 | a line gives no host exactly when its text before `#` is blank |
| AutoClean.Emitted | hosts_editor.py:485-486 | a line emits an entry exactly when it has a host, and the entry is `0.0.0.0 ` followed by that host |
| AutoClean.CleanOne | hosts_editor.py:469-486 | the loop body computes the entry the line emits (`Emitted`), or nothing; it repeats `Emitted`'s steps as the source's statements |
| AutoClean.CleanLines | hosts_editor.py:464-494 | the processor's loop, `seen` set and final sort compute `Clean(lines)` |
| AutoClean.Collect | hosts_editor.py:488-491 | a cleaned line is appended exactly when its lower-cased form is not in `seen`, and `seen` stays the lower-cased forms of the kept lines |
| AutoClean.LowerSetAppend | hosts_editor.py:489-490 | appending a line adds exactly its lower-cased form to `seen` |
| AutoClean.HostShape | hosts_editor.py:469-483 | a line gives no host exactly when its text before `#` is blank; a host has no whitespace and no `#`, and is empty only when the text before `#` ends with the token `*.` |
| AutoClean.HostIsLastToken | hosts_editor.py:469-483 | the host is the last whitespace-separated token of the stripped text before the first `#`, less one leading `*.` |
| AutoClean.WildcardShape | hosts_editor.py:482-483 | removing `*.` keeps a token free of whitespace and `#`, and empties only `*.` itself |
| AutoClean.StructuralContributesNothing | hosts_editor.py:469-473 | blank lines and whole-line comments emit nothing |
| AutoClean.HashLineEmitsNothing | hosts_editor.py:469-473 | a line beginning with `#` emits nothing, whatever follows |
| AutoClean.EntryEmits | hosts_editor.py:469-486 | an entry `0.0.0.0 h` is cleaned to `0.0.0.0 h` with one leading `*.` of h removed |
| AutoClean.EmittedFixed | hosts_editor.py:469-486 | an entry in cleaned form whose host has no wildcard emits itself |
| AutoClean.TokenEmits | hosts_editor.py:469-486 | a lone token free of whitespace and `#` is the host of its line, less one leading `*.` |
| AutoClean.CleanSingle | hosts_editor.py:464-494 | a one-line document cleans to its line's entry, or to nothing |
| AutoClean.BareWildcardLine | hosts_editor.py:477-486 | the line `*.` emits `0.0.0.0 ` with an empty host |
| AutoClean.SecondPassStripsAgain | hosts_editor.py:482-494 | `*.*.h` cleans to `0.0.0.0 *.h`, and a second pass gives `0.0.0.0 h`, so Clean is not idempotent without a condition |
| AutoClean.EmptyHostSecondPass | hosts_editor.py:482-494 | a line that cleans to `0.0.0.0 ` cleans on a second pass to `0.0.0.0 0.0.0.0`, so Clean is not idempotent on an empty host |
| AutoClean.BareWildcardSecondPass | hosts_editor.py:477-494 | `*.` cleans to `0.0.0.0 `, and that cleans to `0.0.0.0 0.0.0.0` |
| AutoClean.AddressToken | hosts_editor.py:486 | the address `0.0.0.0` is a token free of whitespace, `#` and wildcard, and the entry prefix is that address and a space |
| AutoClean.PaddedTokenEmits | hosts_editor.py:469-486 | a token followed by one space emits what the token alone emits |
| AutoClean.WildcardToken | hosts_editor.py:482-483 | `*.` before a clean token is a clean token that loses exactly its `*.` |
| AutoClean.GatherSeen | hosts_editor.py:465-491 | the loop's `seen` set is the lower-cased form of everything emitted so far; the kept lines are distinct up to case and no more numerous than the input |
| AutoClean.GatherFirst | hosts_editor.py:488-491 | the loop keeps exactly the first emission of each case-insensitive class, spelled as that first emission |
| AutoClean.GatherFixed | hosts_editor.py:488-491 | emissions that are all present and distinct up to case are kept unchanged and in order |
| AutoClean.EmissionsAppend | hosts_editor.py:467 | the lines of two documents one after the other emit the two documents' emissions one after the other |
| AutoClean.GatherSkipsNone | hosts_editor.py:471-473 | a line that emits nothing has no effect on what the loop keeps |
| AutoClean.SortKeepsDistinct | hosts_editor.py:494 | sorting keeps the elements distinct under any key |
| AutoClean.InsertKeepsDistinct | hosts_editor.py:494 | inserting an element with a new key into a list whose keys are distinct keeps them distinct |
| AutoClean.SortKeepsLowerDistinct | hosts_editor.py:494 | sorting keeps the lines distinct up to case |
| AutoClean.EmittedShape | hosts_editor.py:477-486 | every emitted entry is `0.0.0.0 ` followed by the line's host, which has no whitespace and no `#` |
| AutoClean.CleanLineShape | hosts_editor.py:464-494 | every line of Clean's output is the cleaned form of some input line |
| AutoClean.CleanSortedAndUnique | hosts_editor.py:464-494 | Clean's output is ascending, distinct up to case, no longer than its input, and holds exactly the first-occurring spelling of each emitted entry |
| AutoClean.CleanCoversInput | hosts_editor.py:464-494 | every entry some line emits appears in the output, up to case |
| AutoClean.CleanIdempotent | hosts_editor.py:464-494 | when no emitted host is empty or starts with `*.`, cleaning twice gives the same as cleaning once |
| Dedup.StructuralMeans | hosts_editor.py:449-450 | a line is kept unconditionally exactly when it is blank or its first non-space character is `#` |
| Dedup.KeyOf | hosts_editor.py:449-452 | only non-structural lines have a key; it is the stripped, lower-cased line, never empty and never starting with `#` |
| Dedup.DedupLines | hosts_editor.py:445-456 | the processor's loop with its `seen` set computes `Dedup(lines)` |
| Dedup.DedupOne | hosts_editor.py:448-455 | the loop body keeps structural lines and lines whose key is unseen, keeps them verbatim, and keeps `seen` equal to the kept lines' keys |
| Dedup.KeySetSnoc | hosts_editor.py:451-452 | a kept line adds exactly its key to `seen` |
| Dedup.KeySetMembers | hosts_editor.py:446-452 | a key is in `seen` exactly when some kept line has it |
| Dedup.FilterKeys | hosts_editor.py:445-456 | for any key function, the filtered lines have exactly the keys of the input |
| Dedup.FilterIsSelection | hosts_editor.py:445-456 | for any key function, the filter returns the lines whose key was not seen earlier, in order |
| Dedup.FilterDroppedTwin | hosts_editor.py:451 | for any key function, a dropped line has an earlier kept line with the same key |
| Dedup.FilterKeepsKeyless | hosts_editor.py:454-455 | for any key function, every keyless line is kept, in order |
| Dedup.FilterKeysUnique | hosts_editor.py:451-453 | for any key function, no two kept lines share a key |
| Dedup.FilterSubsequence | hosts_editor.py:445-456 | for any key function, the output is a subsequence of the input and no longer |
| Dedup.UniqueIsFixed | hosts_editor.py:445-456 | for any key function, lines whose keys are already unique are left as they are |
| Dedup.DedupKeys | hosts_editor.py:445-456 | deduplicating loses no key: the output has exactly the input's keys |
| Dedup.DedupIsSelection | hosts_editor.py:445-456 | the output is exactly the lines that are structural or whose key no earlier line has, in original order |
| Dedup.DroppedHasKeptTwin | hosts_editor.py:450-453 | a dropped line has an earlier kept non-structural line with the same stripped, lower-cased text |
| Dedup.DedupKeepsStructural | hosts_editor.py:454-455 | every blank line and every comment line is kept, in order |
| Dedup.DedupKeysDistinct | hosts_editor.py:450-453 | no two kept non-structural lines have the same stripped, lower-cased text |
| Dedup.DedupSubsequence | hosts_editor.py:445-456 | the output is the input with some lines deleted, in the original order |
| Dedup.DistinctIsFixed | hosts_editor.py:445-456 | a document whose ordinary lines already have distinct keys is left as it is |
| Dedup.DedupIdempotent | hosts_editor.py:445-456 | deduplicating twice gives the same as deduplicating once |
| Keyword.Matches | hosts_editor.py:432 | the matches are at most the document, and are exactly its lines containing the keyword ignoring case |
| Keyword.MatchesExact | hosts_editor.py:432 | the matches keep the document's order, every copy of a matching line and no copy of any other line |
| Keyword.CheckedLines | hosts_editor.py:155-158 | the lines to remove are exactly the matches whose box is checked |
| Keyword.RemoveLines | hosts_editor.py:165-166 | the result has exactly the document's lines that were not selected |
| Keyword.RemoveLinesExact | hosts_editor.py:166 | every copy of an unselected line is kept and no copy of a selected one, in the original order |
| Keyword.RemoveNothing | hosts_editor.py:166 | removing nothing leaves the document as it is |
| Keyword.RemoveAllMatches | hosts_editor.py:155-166 | when every box is checked, what remains is exactly the lines that do not match |
| PfSense.Domain | hosts_editor.py:363-369 | a domain found in a log line is non-empty, holds no comma and is stripped |
| PfSense.DomainOfFields | hosts_editor.py:364-369 | a line yields a domain exactly when it has more than two fields, the first contains `DNSBL-Full` and the third is not blank; the domain is the stripped third field |
| PfSense.FieldsOf | hosts_editor.py:364 | every stripped log line is the comma-join of its `split(',')` fields, none of which holds a comma |
| PfSense.FoundMembers | hosts_editor.py:362-369 | the set holds exactly the domains some parsed line gave |
| PfSense.DomainsOfMembers | hosts_editor.py:362-369 | a domain is collected exactly when some log line yields it |
| PfSense.DomainOfLine | hosts_editor.py:364-369 | the loop body parses one log line as `Domain` does; it repeats `Domain`'s steps as the source's statements |
| PfSense.ExtractDomains | hosts_editor.py:362-369 | the extraction loop collects the set `DomainsOf(logLines)` |
| PfSense.SortedList | hosts_editor.py:376 | `sorted(list(s))` is ascending, holds exactly the members of s, and holds each once |
| PfSense.Imported | hosts_editor.py:378-381 | the document is a prefix of the result; then comes a blank spacer only when the last line is not blank, then the header, then the domains |
| PfSense.Header | hosts_editor.py:380 | the header is a comment line that carries the file's basename after `# --- Imported from ` |
| PfSense.HeaderSetOff | hosts_editor.py:378-380 | in a non-empty document the line just before the header is blank: the spacer, or a last line that was already blank |
| PfSense.CleanOfImported | hosts_editor.py:378-381 | the spacer and header an import adds emit nothing, so cleaning after an import is cleaning the document followed by the domains |
| PfSense.NameStartAt | hosts_editor.py:380 | the last path component starts just after the last separator |
| PfSense.Basename | hosts_editor.py:380 | `basename` is a suffix of the path with no separator, preceded in the path by a separator unless it is the whole path |
| PfSense.BasenameOfJoin | hosts_editor.py:380 | the basename of `dir/name` is name, when name has no separator |
| Diff.RowOf | hosts_editor.py:78-84 | a script line shows no row exactly when it is a `? ` hint; otherwise its row is tagged added for `+ `, removed for `- `, and holds the line without its first two characters |
| Diff.Rows | hosts_editor.py:77-84 | at most one row per script line |
| Diff.RowsWithoutHints | hosts_editor.py:77-84 | in a script without hint lines, row k is the row of line k |
| Diff.DisplayDiff | hosts_editor.py:74-84 | the rendering loop produces `Rows(script)` |
| Diff.HintLinesDropped | hosts_editor.py:83-84 | a `? ` hint line anywhere in the script changes nothing in the preview |
| Diff.RowOfRestores | hosts_editor.py:78-84 | on each well-tagged line, the row shown and difflib's restore give the same text for each side |
| Diff.RowsRestore | hosts_editor.py:74-84 | for a well-tagged script, a side's rows (unchanged plus removed, or unchanged plus added) read back as `restore` of that side |
| Diff.PreviewShowsBothSides | hosts_editor.py:74-84 | the preview of a diff from a to b shows a in its unchanged and removed rows, and b in its unchanged and added rows |
| Diff.RestoreOwn | hosts_editor.py:74 | lines all tagged for one side restore to themselves on that side |
| Diff.RestoreOther | hosts_editor.py:74 | lines tagged for the other side restore to nothing |
| Diff.RestoreAppend | hosts_editor.py:74 | restoring two scripts one after the other gives the two results one after the other |
| Diff.ReplaceAllIsDiff | hosts_editor.py:74 | any two documents have a diff script, so the restore contract is satisfiable |
| Diff.ReplaceSecondLine | hosts_editor.py:74-84 | `["x","y"]` against `["x","z"]`: the script is a diff, and the preview shows unchanged x, removed y, added z |
| Editor.SaveWritesContent | hosts_editor.py:315-337 | after a save the hosts file holds the content exactly when the write happened, and is otherwise as before |
| Editor.SaveNeedsConsent | hosts_editor.py:308-334 | the hosts file changes only after the overwrite was confirmed, after the extra confirmation for a blank editor, and, when a due backup failed, only with the operator's consent |
| Editor.BackupIsPriorContent | hosts_editor.py:316-325 | a backup holds the hosts file's content from before the save, and is written only when that file existed |
| Editor.SaveStore | hosts_editor.py:315-334 | a save removes no file and creates none besides the hosts file and its backup |
| Editor.SaveTouchesTwoFiles | hosts_editor.py:316-334 | a save changes no file besides the hosts file and its backup |
| Editor.SaveLoadRoundTrip | hosts_editor.py:275-293 | text saved with the widget's closing newline and loaded again is the same text |
| Editor.HostsEditor.GetLines | hosts_editor.py:268-273 | the lines hold no line break, and joined with newlines they are the widget's content |
| Editor.HostsEditor.constructor | hosts_editor.py:228-236 | the editor starts unmodified with no dialog, holding the hosts file's lines when it exists and reads, and empty otherwise |
| Editor.HostsEditor.SetText | hosts_editor.py:275-279 | the widget holds the lines joined by newlines, the modified flag is cleared, and `get_lines` gives the lines back |
| Editor.HostsEditor.Edit | hosts_editor.py:242-249 | typing sets the text and marks it modified |
| Editor.HostsEditor.LoadFile | hosts_editor.py:286-298 | with unsaved edits and no confirmation nothing changes; otherwise an existing, readable hosts file replaces the text and clears the modified flag |
| Editor.HostsEditor.SaveFile | hosts_editor.py:308-336 | the files become `SaveStore` of the content, and the modified flag is cleared exactly when the hosts file was written |
| Editor.HostsEditor.ProcessAndPreview | hosts_editor.py:408-419 | when the processor changes nothing no preview opens; otherwise the preview holds the processed lines and the rendered rows, whose unchanged and removed rows are the current lines and whose unchanged and added rows are the processed lines; the document is untouched |
| Editor.HostsEditor.ApplyChanges | hosts_editor.py:87-94 | Apply sets the document to the candidate, clears the modified flag and closes the preview |
| Editor.HostsEditor.CloseDialog | hosts_editor.py:58-66 | Cancel or closing the window changes nothing but the open dialog |
| Editor.HostsEditor.RemoveByKeyword | hosts_editor.py:426-438 | a blank keyword or one without matches opens nothing; otherwise the selection dialog lists the matches; the document is untouched |
| Editor.HostsEditor.ConfirmRemoval | hosts_editor.py:155-170 | with nothing checked the document is unchanged; otherwise it loses every line equal to a checked match and the modified flag is cleared |
| Editor.HostsEditor.ImportPfSenseLog | hosts_editor.py:354-383 | a cancelled choice or a log without domains changes nothing; otherwise the document becomes the import of the distinct domains, ascending, under the file's basename |

## Left out

- The Tk user interface is not modelled: windows, widgets, styling, fonts, checkboxes, the scroll
  canvas, status-bar messages and message boxes. The operator's answers to message boxes are
  parameters (`SaveAnswers`, `confirmRefresh`, `checks`).
- `check_admin_privileges` and `flush_dns` are left out. They are calls into the operating system
  and `ipconfig`.
- Real file I/O, `filedialog`, text encodings and exception types are left out. Files are a map from
  path to content. Whether a read or write succeeds is an input. The path chosen in the file dialog is
  a parameter, with the empty string meaning cancelled. The log's lines are given as read.
- `difflib.ndiff` and its alignment heuristics are left out. The diff script is a parameter. Its
  contract is difflib's `restore`: `IsDiffOf` states it, `ProcessAndPreview` requires it of its
  script, and `ReplaceAllIsDiff` shows it can be met.
- The rows are the preview's content. The widget's read-only state and colour tags are not modelled.
- Text.Lower: only ASCII letters are lower-cased, not Python's full Unicode case mapping.
- Text.SplitLines: `'\n'` is the only line break. Python's `splitlines()` also breaks on `'\r'`,
  `'\x0b'`, `'\x0c'`, `'\x1c'`–`'\x1e'`, `'\x85'`, `'\u2028'` and `'\u2029'`.
- PfSense.Basename: only `/` and `\` separate path components. Drive letters and UNC prefixes of
  `ntpath` are not modelled.
- Editor.HostsEditor.SaveFile: a write that fails leaves the old file in the model. A partially
  written backup or hosts file is not modelled.
- Editor.HostsEditor.SetText: the flag is cleared as the code writes it. Tk's asynchronous
  `<<Modified>>` event, which `on_text_modified` receives after a programmatic insert, is not
  modelled. That event handler appears only as `Edit`, the operator typing.
- The widget's content is held without the closing newline Tk appends. `get_lines` and `save_file`
  add it back.
- Sorting: `sorted` is modelled as an insertion sort. Only its result is modelled, which is unique
  by `SortedUnique`, not Python's algorithm.
- The whitelist, remote URL import, configuration, restoring from a backup and content fingerprints
  are not part of this program and are not modelled.
