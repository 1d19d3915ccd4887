# CommitPatches, modelled in Dafny

`CommitPatches.py` takes a directory of email-style patch files (`0001-x.patch`,
`0002-y.patch`, …) and writes a batch script that applies and commits them one by one
with `svn patch` and `svn commit`. Three of its functions are modelled here.

- It reads a commit message out of each patch:
  - the text between the first `Subject:` and the first `---`, trimmed;
  - a leading `[PATCH]` tag removed;
  - soft line breaks deleted while the cursor is at most `end_pos`, the position of the first
    blank line measured before any deletion. When a newline was deleted before that blank
    line, the deletions shift the text left and the loop reaches past it.
- It reads a patch number from the leading digits of a file name.
- It builds the patch plan: the `.patch` names keyed by number and sorted, refused when
  there are none or when the numbers have a gap.

The project has four modules, one per file.

- `PyText` (`py_text.dfy`) models the Python `str` operations the script relies on:
  - `find`, as the first occurrence at or after a start index, or -1;
  - slicing with non-negative bounds, which are clamped to the length;
  - `strip`, over the full set of characters for which `str.isspace()` holds;
  - `startswith` and `endswith`.
- `CommitMessage` (`commit_message.dfy`) models `parse_commit_message_from_patch_file`, working on the
  patch text.
  - `Message` is the text as it stands when the line-break loop starts.
  - `Collapse` is a character-by-character reference definition of what that loop leaves. It is built from
    the mutually recursive `Unwrap` (the loop head, with the fixed `end_pos` bound) and `Scan` (the search
    for the next newline and its handling).
  - The methods `ParseCommitMessage` and `RemoveLineBreaks` follow the source statement by statement. They
    are proved equal to those functions, and the properties of the result are lemmas about `Collapse`.
- `PatchNumbers` (`patch_numbers.dfy`) models `parse_patch_num`. It has a loop method and the specification
  `PatchNum`, the decimal value of the leading digits.
- `PatchPlan` (`patch_plan.dfy`) models `get_patch_dict`, with the directory listing passed in as a sequence
  of names.
  - `PatchMap` is the dictionary the loop builds: the last name with a given number wins.
  - `SortedItems` stands for `sorted(dict.items())`.
  - `GetPatchDict` returns either the sorted items or one of two errors:
    - `NoPatches`: `sdict[0]` fails on an empty list;
    - `MissingPatches`: the `RuntimeError` for an incomplete set.

### The line-break loop and its comment

The comment at line 21 says the loop processes the message up to the first double line break. The code
does that only when no newline comes before the first blank line:

- `end_pos` is measured once, before any newline is deleted, and never updated.
- A newline followed by a character other than a newline is deleted, and the cursor steps over that
  character. So a first newline followed by text is deleted like any other, and a subject line is
  joined to the line after it.
- A newline that is kept moves the cursor one place.
- At the first blank line, the cursor keeps the first newline and moves to `end_pos + 1 - d`, where `d` is
  the number of newlines deleted so far.
  - When `d` is 0, the cursor has passed `end_pos` and the loop ends. The blank line and everything after
    it stay as written. This is the usual shape of a patch: a one-line subject, a blank line, the body.
  - When `d` is at least 1, the loop goes on. It deletes the blank line's second newline when a character
    other than a newline follows it. It then keeps deleting soft line breaks after the blank line, until
    the cursor passes `end_pos`.

The model follows the code. `CommitMessage.BlankLineKeptAfterOneLineSubject` proves that "Fix\n\nBody" is
left unchanged. `CommitMessage.BlankLineLosesANewline` proves that "A\nB\n\nC", where the break between
"A" and "B" is deleted first, becomes "AB\nC". By the definition `Collapse`, "Fix bug\nline1\nline2\n\nmore"
becomes "Fix bugline1line2\nmore".

## Model

| member | source | states |
|---|---|---|
| PyText.Find | CommitPatches.py:8-9 | `str.find`: the result is -1 or an occurrence at or after `start`, and no earlier position at or after `start` is one; -1 means there is no occurrence at all from `start` |
| PyText.FindAbsent | CommitPatches.py:10 | `find` returns -1 exactly when the pattern does not occur in the text |
| PyText.OccursAtChar | CommitPatches.py:26 | a one-character pattern (`'\n'`) occurs exactly at the indices holding that character |
| PyText.OccursAtPair | CommitPatches.py:21 | a two-character pattern (`'\n\n'`) occurs exactly where those two characters stand side by side |
| PyText.StartNotMatched | CommitPatches.py:9 | a pattern cannot occur at an index whose character differs from the pattern's first one |
| PyText.Slice | CommitPatches.py:14 | `text[a:b]`: empty when `b <= a`; otherwise its length is `min(b, len(text)) - a` when `a < len(text)` and 0 when not, and each character is the text's character at `a + k` |
| PyText.IsSpace | CommitPatches.py:15 | definition: the characters for which `str.isspace()` holds (ASCII tab to carriage return, the separators 0x1c-0x1f, space, and the Unicode spaces and line/paragraph separators); `strip` removes exactly these |
| PyText.StartsWith | CommitPatches.py:16 | definition: `str.startswith`, the text is at least as long as the prefix and begins with it |
| PyText.EndsWith | CommitPatches.py:50 | definition: `str.endswith`, the text is at least as long as the suffix and ends with it |
| PyText.LeadingSpace | CommitPatches.py:15 | the length of the longest whitespace prefix: every character before it is whitespace and the next is not |
| PyText.TrailingSpace | CommitPatches.py:15 | the length of the longest whitespace suffix, stated the same way from the end |
| PyText.Strip | CommitPatches.py:15 | `strip()`: the result has whitespace at neither end and stands in the input with only whitespace around it |
| CommitMessage.Message | CommitPatches.py:8-18 | no message exactly when `Subject:` or `---` is missing; otherwise a message with no whitespace at either end |
| CommitMessage.Tidy | CommitPatches.py:15-18 | the trimmed text, with one `[PATCH]` tag removed and trimmed again, has no whitespace at either end |
| CommitMessage.BreakBound | CommitPatches.py:21-23 | `end_pos` is the start of the first "\n\n" when there is one (no "\n\n" starts before it), and the length of the message when there is none |
| CommitMessage.Unwrap | CommitPatches.py:25 | definition: the loop head; with the cursor (the length of the text already passed) beyond the fixed `end_pos` the loop stops and the text is left as it is, otherwise `Scan` runs; its properties are stated by `UnwrapDropsOnlyNewlines` and `RemoveLineBreaks` |
| CommitMessage.Scan | CommitPatches.py:26-31 | definition: one loop turn, character by character: no newline left gives the text unchanged, a newline followed by another character is deleted and the cursor steps over that character, any other newline is kept and the cursor steps past it; its properties are stated by `ScanDropsOnlyNewlines`, `ScanSkip`, `ScanPastLastNewline` and `ScanJoinsAllLines` |
| CommitMessage.Collapse | CommitPatches.py:20-31 | definition: what the loop leaves of a message, started at cursor 0 with `end_pos` from `BreakBound`; `RemoveLineBreaks` is proved to compute it, and its properties are stated by `CollapseKeepsOuterCharacters` and `CollapseJoinsAllLines` |
| CommitMessage.WithoutNewlines | CommitPatches.py:20 | the message with every newline removed has no newline and is no longer than the message |
| CommitMessage.WithoutNewlinesKeepsOthers | CommitPatches.py:20 | removing the newlines keeps every other character, in order; with the function's own contract this fixes `WithoutNewlines` exactly |
| CommitMessage.ParseCommitMessage | CommitPatches.py:8-32 | `None` exactly when a marker is missing; otherwise the result is `Collapse` of the extracted message, has whitespace at neither end, and differs from the extracted message only by deleted newlines |
| CommitMessage.RemoveLineBreaks | CommitPatches.py:20-31 | the loop leaves exactly `Collapse` of the trimmed message, including the stale `end_pos` and the cursor step after a kept newline; it terminates because the cursor grows strictly up to `end_pos` |
| CommitMessage.DeleteNewline | CommitPatches.py:29-31 | at a newline followed by another character, one loop turn equals one reference step: the newline goes and the cursor moves past that character |
| CommitMessage.KeepNewline | CommitPatches.py:29-31 | at a newline that ends the message or precedes another newline, the newline stays and the cursor moves past it |
| CommitMessage.ScanPastLastNewline | CommitPatches.py:26-28 | when no newline lies after the cursor, the loop stops and the rest of the message is unchanged |
| CommitMessage.ScanSkip | CommitPatches.py:26 | the search for the next newline passes every other character unchanged |
| CommitMessage.UnwrapDropsOnlyNewlines | CommitPatches.py:25-31 | from any loop state, the part already passed is kept, and everything after it loses only newline characters |
| CommitMessage.ScanDropsOnlyNewlines | CommitPatches.py:26-31 | the same for one search-and-handle step |
| CommitMessage.KeepsAll | CommitPatches.py:25 | deleting no newline is a valid way of deleting only newlines (the loop may not run at all) |
| CommitMessage.DropsOnlyNewlinesKeepsEnds | CommitPatches.py:29-30 | deleting only newlines keeps a first or last character that is not a newline |
| CommitMessage.DropsOnlyNewlinesKeepsText | CommitPatches.py:30 | deleting only newlines keeps every other character, in order |
| CommitMessage.CollapseKeepsOuterCharacters | CommitPatches.py:20-31 | the loop only deletes newlines, keeps all other text, and keeps a trimmed message trimmed |
| CommitMessage.ScanJoinsAllLines | CommitPatches.py:25-31 | below the bound, with no blank line and no trailing newline, the loop deletes every newline |
| CommitMessage.CollapseJoinsAllLines | CommitPatches.py:20-31 | a trimmed message with no blank line comes out on one line: all of its newlines are removed and nothing else |
| CommitMessage.BlankLineLosesANewline | CommitPatches.py:21-31 | "A\nB\n\nC" becomes "AB\nC": once a newline before the blank line has been deleted, the blank line loses its second newline |
| CommitMessage.BlankLineKeptAfterOneLineSubject | CommitPatches.py:21-31 | "Fix\n\nBody" is left unchanged: with no deletion before the blank line, keeping its first newline moves the cursor past `end_pos` and the loop at line 25 ends |
| CommitMessage.MessageBetweenMarkers | CommitPatches.py:8-18 | for `Subject:` + s + `---` with no `-` in s, the message is exactly s trimmed, with a `[PATCH]` tag removed |
| CommitMessage.EndMarkerFirstGivesEmpty | CommitPatches.py:13-14 | when the first `---` starts before the end of the first `Subject:`, the slice is empty and the message is "" |
| PatchNumbers.DigitValue | CommitPatches.py:38-39 | `ord(ch) - ord('0')` of a digit lies in 0..9 |
| PatchNumbers.LeadingDigits | CommitPatches.py:37-40 | the length of the leading run of digits: every character before it is a digit and the next is not |
| PatchNumbers.DecimalValue | CommitPatches.py:41 | definition: a string of digits read as a decimal numeral, most significant digit first, "" reading as 0; `DecimalRoundTrip` and `LeadingZeroIgnored` state its properties |
| PatchNumbers.PatchNum | CommitPatches.py:35-42 | definition: the decimal value of the name's leading digits; `ParsePatchNum` is proved to compute it, and `PatchNumStopsAtNonDigit`, `PatchNumWithoutDigits` and `PatchNumOfNumeral` state its properties |
| PatchNumbers.ParsePatchNum | CommitPatches.py:35-42 | the loop returns `PatchNum`: the decimal value of the name's leading digits, stopping at the first non-digit |
| PatchNumbers.LeadingDigitsAt | CommitPatches.py:39-40 | a run of digits that ends at the end of the name or at a non-digit is the leading run |
| PatchNumbers.PatchNumStopsAtNonDigit | CommitPatches.py:39-40 | characters after the first non-digit never change the number |
| PatchNumbers.PatchNumWithoutDigits | CommitPatches.py:36-40 | a name that does not start with a digit, or is empty, has number 0 |
| PatchNumbers.DigitChar | CommitPatches.py:38 | the digit character for 0..9 is a digit, and its value is that number |
| PatchNumbers.Decimal | CommitPatches.py:41 | the numeral written for a number is non-empty and all digits |
| PatchNumbers.DecimalRoundTrip | CommitPatches.py:41 | reading back the numeral written for `n` gives `n` |
| PatchNumbers.LeadingZeroIgnored | CommitPatches.py:41 | a leading `0` does not change the value of a numeral |
| PatchNumbers.ZerosIgnored | CommitPatches.py:41 | any number of leading zeros leaves the value of a numeral unchanged |
| PatchNumbers.PatchNumOfNumeral | CommitPatches.py:35-42 | a name made of zeros, the numeral for `n`, then nothing or a non-digit, has number `n` |
| PatchNumbers.PatchNumExamples | CommitPatches.py:35-42 | `007_x.patch` has number 7; `fix.patch` and "" have number 0 |
| PatchPlan.PatchMap | CommitPatches.py:48-55 | definition: the dictionary after the loop, built name by name in listing order, each `.patch` name stored under its number over any earlier one; `CollectPatches` is proved to compute it, and its properties are stated by `PatchMapKeys`, `PatchMapLastWins` and `PatchMapEntries` |
| PatchPlan.PatchMapEntries | CommitPatches.py:50-55 | every value of the dictionary is a `.patch` name, and it is stored under its own patch number |
| PatchPlan.PatchMapKeys | CommitPatches.py:48-55 | a number is a key of the dictionary exactly when some `.patch` name has that number |
| PatchPlan.PatchMapLastWins | CommitPatches.py:55 | the name stored under a number is the last `.patch` name in the listing with that number |
| PatchPlan.CollectPatches | CommitPatches.py:48-55 | the loop builds exactly `PatchMap` of the listing |
| PatchPlan.NoPatchNameMeansEmpty | CommitPatches.py:50-51 | the dictionary is empty exactly when no name ends in `.patch` |
| PatchPlan.Insert | CommitPatches.py:57 | inserting an item with a new key into an ascending sequence keeps it ascending, adds that one item and loses none |
| PatchPlan.SortedItems | CommitPatches.py:57 | `sorted(dict.items())` is ascending and lists each item of the dictionary exactly once |
| PatchPlan.GetPatchDict | CommitPatches.py:45-65 | `NoPatches` exactly when no name ends in `.patch`; `MissingPatches` exactly when the dictionary's numbers have a gap; otherwise the result is the plan: every entry, ascending and consecutive from the first number |
| PatchPlan.IsPlan | CommitPatches.py:57-65 | definition: what a successful call returns: a non-empty sequence holding every item of the dictionary and nothing else, with numbers consecutive from the first, which makes it ascending |
| PatchPlan.HasGap | CommitPatches.py:61-63 | definition: the patch set is incomplete: some number lies strictly between two patch numbers and is not one itself |
| PatchPlan.AscendingSpreadUp | CommitPatches.py:58-61 | in a sorted list of distinct numbers, the `i`-th is at least the first plus `i` |
| PatchPlan.AscendingSpreadDown | CommitPatches.py:59-61 | the last is at least the `i`-th plus the number of entries after it |
| PatchPlan.ConsecutiveWhenCountMatches | CommitPatches.py:61 | when the count equals `last - first + 1`, the sorted numbers are exactly first, first+1, … |
| PatchPlan.PlanWhenCountMatches | CommitPatches.py:61-65 | when the check at line 61 passes, the sorted items form a plan for the dictionary |
| PatchPlan.PlanHasNoGap | CommitPatches.py:61-65 | the numbers of a dictionary that has a plan have no gap |
| PatchPlan.GapWhenCountDiffers | CommitPatches.py:61-63 | when the count differs from `last - first + 1`, some number between two patch numbers is missing |
| PatchPlan.FirstJump | CommitPatches.py:61 | when the last number is not `from`'s number plus the entries after it, two neighbours after `from` differ by more than one |
| PatchPlan.PlanIsUnique | CommitPatches.py:57-65 | a dictionary has at most one plan, so the accepted result is determined by the names |
| PatchPlan.KeysOfOneAndThree | CommitPatches.py:48-55 | the names `1.patch` and `3.patch` give the numbers {1, 3} |
| PatchPlan.GapExample | CommitPatches.py:61-63 | `1.patch` and `3.patch` without `2.patch` have a gap, so they are refused as missing patches |
| PatchPlan.NumberOfDigitName | CommitPatches.py:35-42 | `d.patch` for a single digit `d` has number `d` |
| PatchPlan.SameNumberLastWins | CommitPatches.py:54-55 | `patch.patch` and `other.patch` both have number 0, and the later one is kept |

## Left out

- Reading the patch file (lines 5-6): the model starts from the file's text.
- Listing the directory (line 46): `os.listdir` is replaced by a sequence of names, in the order the sequence gives.
- `process_dir_with_patches` (lines 67-107) is not part of this model. It checks the folder, creates a `commit` sub-directory, writes one `NNN.msg` file per patch holding its commit message, and appends `svn patch "…" || exit /b` and `svn commit -F "…" || exit /b` lines for it to `commit.bat`; it runs no command itself.
- The `print` at line 62: output to the console is not modelled.
- The command line (lines 110-115): `argparse` is not modelled.
- Python's exception types: `IndexError` and `RuntimeError` become the `PlanError` values `NoPatches` and `MissingPatches`.
- PatchPlan.SortedItems: it models only the result of `sorted()` (ascending by key, each item once), not Python's sorting algorithm; with distinct keys the result is the same.
- WithoutNewlines: its own contract says only that the result has no newline and is no longer than its input; that it keeps every other character in order is the separate lemma `WithoutNewlinesKeepsOthers`, because that clause on the function made every proof that mentions the function far more expensive.
- Text encoding: Python strings are sequences of code points, and the model uses `seq<char>`. The file's decoding and newline translation on read are not modelled.
