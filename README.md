# gcommit: a verified model of the commit-message assistant

`gcommit.py` is a command-line helper that drafts a git commit message with
a language model. It lists the staged files and sends them, with the start of
the staged diff, in a fixed prompt. It cleans up the model's reply and shows
the draft in a box, word-wrapped when long. It then asks `[Y/n]` until the
user accepts or declines. On acceptance it commits and prints the short
commit id. On refusal it prints the `git commit -m` command to make the commit
by hand.

This project models that core in Dafny. It has four modules:

- `Text` models the Python string built-ins the tool relies on: `strip()` and
  `split()` with Python's whitespace set, ASCII `lower()`, `sep.join`,
  slicing `s[:n]` and `str(n)` on naturals. Each comes with its
  characterising lemmas.
- `Synthesis` models the prompt, the reply clean-up (sanitiser) and how a
  reply, a missing reply or an exception turns into a message or a failure
  status.
- `Display` models the staged-file preview, the greedy word-wrapping loop
  (a method proved equal to a greedy packing specification) and the message
  box.
- `Commit` models the confirmation loop (a method proved against the
  decision function on the typed answers), the success status and the manual
  command.

The modelled output is the prompt text, the staged-file preview rows, the
message box, the two reply-failure statuses, the commit success status and
the manual command. Each
is modelled as the string or the list of lines it prints. The model's reply,
the typed answers and the commit id are inputs.

Sanitising as a whole is not idempotent; only quote removal is
(`Synthesis.RemoveQuotesIdempotent`). The whole clean-up strips whitespace
before it deletes quotes, so a second pass can strip whitespace that quotes
used to hide. `Synthesis.SanitizeNotIdempotent` gives such a reply, and
`Synthesis.SanitizeIdempotentIff` states exactly when a second pass changes
nothing.

## Model

| member | source | states |
|---|---|---|
| Text.StripSlice | gcommit.py:155 | `strip()` returns a contiguous slice of its input, and only whitespace is cut from either end |
| Text.StripFixedIff | gcommit.py:155 | `strip()` leaves a string unchanged exactly when neither end is whitespace, and stripping twice equals stripping once |
| Text.StripPadding | gcommit.py:201 | whitespace added around a string does not change what `strip()` returns |
| Text.LowerStripCommute | gcommit.py:201 | lower-casing and stripping commute, because lower-casing keeps whitespace where it is |
| Text.Words | gcommit.py:173 | `split()` returns only non-empty words that contain no whitespace |
| Text.WordsSplitAtSpace | gcommit.py:173 | `split()` cuts at every whitespace character: the words of a string with a whitespace character inside are the words before it followed by the words after it |
| Text.WordsOfUnwords | gcommit.py:173-179 | splitting words that were joined with single blanks gives the words back |
| Text.SplitOnJoin | gcommit.py:125 | joining parts that contain no separator and splitting at the separator gives the parts back |
| Text.JoinSplitOn | gcommit.py:125 | splitting at a separator and joining with it gives the string back |
| Text.Take | gcommit.py:128 | `s[:n]` is the prefix of length min(n, len(s)) |
| Text.DecimalValueOfNatToString | gcommit.py:99 | `str(n)` is a digit string whose decimal value is n |
| Synthesis.PromptDiffSection | gcommit.py:121-141 | the DIFF section of the prompt is exactly the first min(1500, len(diff)) characters of the diff, and only the fixed tail follows it |
| Synthesis.PromptIgnoresDiffTail | gcommit.py:128 | diff text past the first 1500 characters never changes the prompt |
| Synthesis.PromptFileSection | gcommit.py:124-125 | read line by line, the FILES section holds one `- <file>` line per staged file, in staging order |
| Synthesis.Delete | gcommit.py:155 | `replace(c, '')` leaves no `c` and introduces no character that was not there |
| Synthesis.RemoveQuotes | gcommit.py:155 | the two `replace` calls leave no double or single quote |
| Synthesis.RemoveQuotesIsUnquoted | gcommit.py:155 | the two `replace` calls equal a one-pass filter that drops exactly the quotes and keeps the rest in order |
| Synthesis.UnquotedKeepsCounts | gcommit.py:155 | quote filtering keeps each non-quote character as often as it occurs |
| Synthesis.Sanitize | gcommit.py:155 | the cleaned message has no quotes and is no longer than the reply |
| Synthesis.SanitizeKeepsOtherCharacters | gcommit.py:155 | the cleaned message is the stripped reply with only its quotes removed |
| Synthesis.RemoveQuotesIdempotent | gcommit.py:155 | removing quotes twice equals removing them once |
| Synthesis.SanitizeIdempotentIff | gcommit.py:155 | cleaning a cleaned message again changes nothing exactly when it has no whitespace at either end |
| Synthesis.SanitizeNotIdempotent | gcommit.py:155 | the reply `" x"` cleans to ` x`, and cleaning that again gives `x` |
| Synthesis.AiErrorStatus | gcommit.py:160-164 | the error status is "AI Error: " then the first min(50, len) characters of the exception text, then "..." |
| Synthesis.Generate | gcommit.py:147-164 | a message is produced exactly for a response with non-empty text, and it is that text cleaned; no response or empty text fails with the fixed status; an exception fails with its truncated text |
| Synthesis.BlankReplyGivesEmptyMessage | gcommit.py:151-155 | every non-empty reply made only of whitespace, or only of quotes, passes the emptiness test and produces an empty message |
| Synthesis.GenerateNonEmpty | gcommit.py:151-155 | with the emptiness test moved after cleaning, a message is produced exactly when the cleaned text is non-empty; the message is then non-empty and agrees with the code as written |
| Display.PadRight | gcommit.py:190-194 | `f"{line:<56}"` keeps the line as a prefix and fills with blanks up to 56 characters; a longer line is kept whole |
| Display.WrapWords | gcommit.py:173-186 | the wrapping loop produces exactly the lines of the greedy packing of the message's words |
| Display.DisplayCommitMessage | gcommit.py:166-196 | the printed box is the top border, one padded row per shown line, and the bottom border; a message of at most 56 characters gets a single row |
| Display.WrapKeepsWords | gcommit.py:171-186 | wrapping loses, adds and reorders no word: the shown lines read word by word give the message's words |
| Display.WrapLineBounds | gcommit.py:177-186 | every wrapped line is non-empty, and a line wider than 56 is a single word |
| Display.WrapIsGreedy | gcommit.py:177-183 | each wrapped line is full: with a blank and the next line's first word it would exceed 56 characters |
| Display.BoxRowShape | gcommit.py:190-194 | each box row is the "│ " border, the line, blanks up to max(56, len(line)) characters, and the " │" border |
| Display.Preview | gcommit.py:96-99 | the preview names the first min(3, n) staged files in order and adds one summary row when there are more than three |
| Display.PreviewAccountsForAll | gcommit.py:96-99 | every staged file is accounted for: up to three are named; otherwise the summary row reads "   ... and ", a number, " more files", and that number plus three is the total |
| Commit.AcceptsExactly | gcommit.py:201-203 | an answer accepts exactly when, once stripped, it is empty or is "y" or "yes" in any letter case |
| Commit.DeclinesExactly | gcommit.py:201-205 | an answer declines exactly when, once stripped, it is "n" or "no" in any letter case |
| Commit.ClassifyIgnoresPaddingAndCase | gcommit.py:201 | surrounding whitespace and letter case do not change how an answer is read |
| Commit.BlankAnswerAccepts | gcommit.py:201-203 | pressing Enter, or typing only whitespace, accepts |
| Commit.DecideSkipsRetries | gcommit.py:200-207 | answers that are asked again do not influence the decision |
| Commit.DecideIgnoresLater | gcommit.py:200-205 | once an answer decides, later answers are never considered |
| Commit.FirstDecisionOfInputs | gcommit.py:200-207 | on typed input: unrecognised answers before the rest do not matter, and input after a decision is never read |
| Commit.ConfirmCommit | gcommit.py:198-207 | the loop returns the decision of the first accepting or declining answer, after reading only up to that answer, and every earlier answer was asked again; with no such answer all input is read and there is no decision |
| Commit.CommitStatus | gcommit.py:220-221 | the success status is "Commit successful [", the first min(8, len) characters of the commit id, then "]" |
| Commit.ManualCommandSplits | gcommit.py:252 | for a message without double quotes, the manual command splits at its double quotes into the command head, the message and the line end |
| Commit.ManualCommandQuotesMessage | gcommit.py:252 | a cleaned message is always exactly the one quoted argument of the printed manual command |

## Left out

- Git access (reading the staged file list and diff, making the commit, reading the new commit id) is not modelled. The file list, the diff and the commit id are inputs.
- The language-model call and its configuration are not modelled. Its reply, or the exception it raises, is an input (`Synthesis.Reply`).
- The loading spinner and its thread are left out. They only print animation frames.
- Environment checks, the banner, coloured status icons, `sys.exit` codes and the top-level `main` flow are left out. They are I/O and control flow around the modelled steps.
- Other printed text is left out: the `input()` prompt, the "Type 'y' or 'n'" re-prompt, the "Files staged: N", "AI connected", "Commit message generated", "Commit error: ..." and "Cancelled" statuses. They are printed around the modelled steps and carry no property of them.
- Ctrl+C handling is left out. It is an asynchronous signal.
- Text.Lower: lower-casing is modelled for ASCII letters only. Python's full Unicode case mapping is not modelled.
- Commit.ConfirmCommit: the typed answers are a finite sequence. Running out of input stands for end of file, where `input()` raises and the tool exits with status 1. The model returns no decision in that case.
- Commit.ManualCommand: how a shell would expand the printed command (`$`, backquotes, backslashes in the message) is not modelled. Only the double-quote structure is proved.
- Display.DisplayCommitMessage: the two identical branches of the row formatting (first line and later lines) are modelled as one.

## Findings

| source | as written | input that shows it | evidently intended | confidence | as-written member | corrected member |
|---|---|---|---|---|---|---|
| gcommit.py:151-155 | The emptiness test is applied to the raw reply text, before stripping and quote removal. | A reply whose text is `"  "` or `""` (two double quotes) gives the empty commit message. | The tool should refuse an empty cleaned message with "AI failed to generate message", as it does for an empty reply. | medium, not executed | Synthesis.BlankReplyGivesEmptyMessage | Synthesis.GenerateNonEmpty |
