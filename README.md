# add-header pre-commit hook, modelled in Dafny

This project models the `add-header` pre-commit hook of `pre_commit_hooks/add_header.py`.
The hook puts a standard copyright and license header block at the top of source files and
refreshes it. The block is delimited by a sentinel line, `"# "` followed by 65 `=`
characters. Between the two sentinels it holds the file's `git log` authors, the year of
the latest commit, and a license label guessed from the repository's `LICENSE` file.

The model lifts every input the hook reads from outside to a parameter:

- the stdout of `git log --follow --format=%aN <%aE>` (`authorLog`);
- the stdout of `git log -1 --format=%ad --date=format:%Y` (`yearLog`);
- the current calendar year (`currentYear`);
- the LICENSE file, `None` when it does not exist (`licenseFile`);
- the target file, as the list of lines that `splitlines()` returns (`content`).

What the hook writes comes back as `Some(text)`. The hook writes nothing in one case, and
the model returns `None` there.

Modules:

- `PyStr` (pystr.dfy) models the Python `str` operations the hook uses: `strip()`,
  `split("\n")`, `"\n".join`, `splitlines()`, `lower()`, the substring test `in`, and
  `str(n)`. Each comes with lemmas that give its meaning, such as strip keeping the one
  trimmed slice, join inverting split, and parse inverting `str`.
- `Ordering` (ordering.dfy) models Python's `<` on strings and `sorted(set(xs) - {''})`.
  It proves that a strictly sorted list is fixed by its set of elements.
- `AddHeader` (add_header.dfy) models the five parts of the hook:
  - `get_authors`;
  - `get_latest_commit_year`;
  - `get_license_type`;
  - `HEADER_TEMPLATE` formatting;
  - `process_file`. Its sentinel scan is a `method` with a `while` loop that keeps
    `found` and `header_end_idx` and breaks at the second sentinel. It is proved equal to
    the functional specification `Rewrite`.
- `Idempotence` (idempotence.dfy) reads the written text back with `splitlines()`. It
  proves that the text starts with the new header followed by the kept lines, and that
  running the hook again writes the same text.
- `Examples` (author_example.dfy) proves the outcome for the history `B <b@x>`, `A <a@x>`,
  `A <a@x>`: naming `B <b@x>` once and `A <a@x>` twice gives `["A <a@x>", "B <b@x>"]`.

The code's behaviour, which the model follows:

- A file with no sentinel line is not written at all: the write sits inside `if found:`
  (add_header.py:93). The docstring of `process_file` (add_header.py:68) says "add or
  update", and the comment at add_header.py:94 says "modify or prepend". Both suggest that
  a file without a header would get one. The code does not do that, and the model follows
  the code.
- The scan covers every line of the file and stops at the second sentinel. The comment on
  the loop speaks of the first 10 lines, but no bound exists in the code.
- The scan is not anchored at the top of the file. A file with one sentinel gets the new
  header in front of all its lines. A file with two or more sentinels loses everything up
  to and including the second one. Anything after that, further sentinels included, is
  kept.
- With no authors, the `{authors}` slot still takes one line, which is empty.
- The text written is `header + "\n" + "\n".join(rest) + "\n"`, so an empty remainder
  writes `header + "\n\n"`.

## Model

| member | source | states |
|---|---|---|
| `AddHeader.AuthorNames` | pre_commit_hooks/add_header.py:35 | the author list is strictly increasing (so it has no duplicates), holds no newline, and holds exactly the non-empty lines of the stripped log |
| `AddHeader.AuthorLines` | pre_commit_hooks/add_header.py:36 | one `# Authors: <a>` line per author, at the author's position |
| `AddHeader.AuthorBlock` | pre_commit_hooks/add_header.py:36 | defines `"\n".join(f"# Authors: {author}" ...)`, the value `get_authors` returns; its meaning is stated by `AuthorBlockLines` |
| `AddHeader.AuthorSlot` | pre_commit_hooks/add_header.py:19 | defines the lines the `{authors}` slot of the template becomes: the author lines, or one empty line when there is no author; `AuthorBlockLines` proves the block splits into exactly these |
| `AddHeader.AuthorBlockLines` | pre_commit_hooks/add_header.py:36 | the joined author block splits back into exactly the author lines, in sorted order; it is the empty string, one empty header line, exactly when there is no author |
| `Ordering.SortedDistinctNonEmpty` | pre_commit_hooks/add_header.py:35 | `sorted(set(xs) - {''})` is strictly sorted and holds exactly the non-empty elements of `xs` |
| `Ordering.Insert` | pre_commit_hooks/add_header.py:35 | adding one element keeps the list strictly sorted and adds exactly that element |
| `Ordering.StrictlySortedUnique` | pre_commit_hooks/add_header.py:35 | two strictly sorted lists with the same elements are equal, so the author list is the only sorted listing of the author set |
| `Ordering.LessTransitive` | pre_commit_hooks/add_header.py:35 | Python's string `<` is transitive |
| `Ordering.LessTotal` | pre_commit_hooks/add_header.py:35 | any two different strings are ordered one way or the other |
| `Ordering.Less` | pre_commit_hooks/add_header.py:35 | defines Python's `<` on `str`, lexicographic by code point, the order `sorted` uses; `LessIrreflexive`, `LessTransitive`, `LessTotal` and `LessAsymmetric` prove it a strict total order |
| `Examples.DuplicateAuthors` | pre_commit_hooks/add_header.py:35 | a log naming `b` once and `a` twice, with `a < b`, yields the author list `[a, b]` |
| `Examples.AuthorsExample` | pre_commit_hooks/add_header.py:35-36 | the log `B <b@x>`, `A <a@x>`, `A <a@x>` yields `["A <a@x>", "B <b@x>"]` |
| `AddHeader.LatestCommitYear` | pre_commit_hooks/add_header.py:45 | the year is never empty; it is the stripped output when that is non-empty; otherwise it is a decimal string without a leading zero that parses back to the current year, which is `str(current_year)` by `PyStr.DecimalStringUnique` |
| `PyStr.ParseDecimalString` | pre_commit_hooks/add_header.py:45 | `str(year)` parses back to `year` |
| `PyStr.DecimalStringUnique` | pre_commit_hooks/add_header.py:45 | a digit string with no leading zero (or `"0"`) is `str` of the number it parses to, so `str(n)` is the only such string for `n` |
| `PyStr.DecimalString` | pre_commit_hooks/add_header.py:45 | `str(n)` is made of decimal digits and starts with `0` exactly when `n` is zero, in which case it is `"0"` |
| `AddHeader.BlankYearLogFallsBack` | pre_commit_hooks/add_header.py:45 | a `git log -1` output made only of whitespace gives exactly `str(current_year)` |
| `PyStr.StripAllSpace` | pre_commit_hooks/add_header.py:45 | an all-whitespace string strips to the empty string, which is falsy for the `or` |
| `AddHeader.LicenseType` | pre_commit_hooks/add_header.py:48-64 | the result is one of the five labels, and it is "MIT License" when there is no LICENSE file |
| `AddHeader.LicensePriority` | pre_commit_hooks/add_header.py:54-64 | each label is chosen exactly when its keyword occurs in the lower-cased text and no keyword earlier in the order mit, apache, gnu general public, bsd does |
| `AddHeader.LicenseCaseInsensitive` | pre_commit_hooks/add_header.py:54 | a text and its lower-cased form get the same label |
| `AddHeader.MitLicenseDominates` | pre_commit_hooks/add_header.py:55-56 | a text containing "mit license" in any case is MIT, whatever text surrounds it |
| `PyStr.LowerIdempotent` | pre_commit_hooks/add_header.py:54 | lower-casing twice equals lower-casing once |
| `PyStr.ContainsInContext` | pre_commit_hooks/add_header.py:55 | a substring of a part is a substring of any text around that part |
| `PyStr.Occurrence` | pre_commit_hooks/add_header.py:55 | when `pat in text` holds, `pat` occurs at the returned position |
| `PyStr.Contains` | pre_commit_hooks/add_header.py:55 | defines the substring test `pat in text`; `ContainsAt` and `Occurrence` prove it holds exactly when `pat` occurs at some position |
| `PyStr.Lower` | pre_commit_hooks/add_header.py:54 | `lower()` as an ASCII fold: the result has the input's length, and each character is the input's character with `A`-`Z` mapped to `a`-`z`; `LowerIdempotent` and `LowerAppend` build on it |
| `AddHeader.RenderHeaderJoinsLines` | pre_commit_hooks/add_header.py:16-26 | the stripped, formatted template equals the header lines joined by newlines. The lines are the sentinel, `#`, the author slot, `#`, the copyright line, `#`, the license line, `#`, and the sentinel. `strip()` removes only the template's outer newlines |
| `AddHeader.FormatTemplate` | pre_commit_hooks/add_header.py:16-26 | defines `HEADER_TEMPLATE.format(authors=..., year=..., license_type=...)` with the template's literal lines and slots; `RenderHeaderJoinsLines` gives its meaning |
| `AddHeader.RenderHeader` | pre_commit_hooks/add_header.py:76-80 | defines the formatted template followed by `.strip()`; `RenderHeaderJoinsLines` and `HeaderShape` prove it is the nine header lines joined by newlines |
| `AddHeader.NewHeader` | pre_commit_hooks/add_header.py:72-80 | defines `new_header` from the author log, the year log, the current year and the LICENSE file; `Idempotence.HeaderFacts` proves its lines start and end with the only two sentinels |
| `AddHeader.Repeat` | pre_commit_hooks/add_header.py:17 | builds the 65 `=` characters of the sentinel `"# " + 65 "="` (the constant `Sentinel`, the line at add_header.py:17, 25 and 86); its ensures give the length and every character |
| `AddHeader.HeaderShape` | pre_commit_hooks/add_header.py:76-80 | the rendered header, split into lines, is exactly those header lines, with one empty line in the author slot when there is no author |
| `AddHeader.HeaderLinesShape` | pre_commit_hooks/add_header.py:16-26 | the first and last header lines strip to the sentinel, no other line does, and no line holds a newline (year and license being single lines) |
| `AddHeader.SentinelIsSentinelLine` | pre_commit_hooks/add_header.py:17 | the template's sentinel line passes the scan's test |
| `AddHeader.IsSentinelLine` | pre_commit_hooks/add_header.py:86 | defines the scan's test `line.strip() == "# ===...==="`; `SentinelIsSentinelLine` and `NotSentinelByPrefix` say which lines pass |
| `AddHeader.SentinelCount` | pre_commit_hooks/add_header.py:83-91 | defines the number of lines passing the scan's test; `SentinelCountPositive`, `SentinelCountAppend` and `SentinelCountNone` give its meaning |
| `AddHeader.NotSentinelByPrefix` | pre_commit_hooks/add_header.py:86 | a line starting with, for example, `# A` or `# C` never strips to the sentinel |
| `AddHeader.SentinelCountPositive` | pre_commit_hooks/add_header.py:86-93 | `found` can become true exactly when some line strips to the sentinel |
| `AddHeader.NthSentinel` | pre_commit_hooks/add_header.py:85-89 | the returned index is a sentinel line with exactly `n` sentinel lines before it |
| `AddHeader.NthSentinelUnique` | pre_commit_hooks/add_header.py:85-89 | such an index is unique, so the scan's stopping point, the second sentinel, is determined |
| `AddHeader.Remainder` | pre_commit_hooks/add_header.py:88-96 | defines the lines kept after the new header: all of them with one sentinel, `content[j+1:]` after the second sentinel `j` otherwise; `RewriteCases` states both |
| `AddHeader.Rewrite` | pre_commit_hooks/add_header.py:83-98 | defines what `process_file` writes, `None` when it writes nothing; `RewriteCases` gives its three outcomes, `ProcessFile` is proved equal to it, and `Idempotence.ProcessFileIdempotent` proves it idempotent |
| `AddHeader.RewriteCases` | pre_commit_hooks/add_header.py:83-98 | the output is written exactly when some line strips to the sentinel. With one sentinel, the header goes in front of all lines. When line `j` is a sentinel with exactly one sentinel before it, the output is the header followed by `content[j+1:]` |
| `AddHeader.ProcessFile` | pre_commit_hooks/add_header.py:67-98 | the loop over every line, with `found`, `header_end_idx` and `break`, followed by the conditional write, produces exactly `Rewrite(content, new_header)` |
| `Idempotence.RewriteOwnOutput` | pre_commit_hooks/add_header.py:85-98 | a block whose sentinels are its first and last line and appear nowhere else, written in front of any newline-free lines, is read back as that block followed by those lines, and is rewritten to the same text |
| `Idempotence.WrittenFileLayout` | pre_commit_hooks/add_header.py:98 | the written text, read back with `splitlines()`, is the new header's lines followed by the kept lines, or by one empty line when none were kept |
| `Idempotence.ProcessFileIdempotent` | pre_commit_hooks/add_header.py:67-98 | given the same authors, year and license, the hook applied to its own output writes that output again |
| `PyStr.StripShape` | pre_commit_hooks/add_header.py:86 | `strip()` keeps a slice flanked only by whitespace, and the slice starts and ends with non-whitespace |
| `PyStr.StripIsTrimmedSlice` | pre_commit_hooks/add_header.py:80 | that slice is unique: a slice flanked by whitespace with non-whitespace ends is what `strip()` returns |
| `PyStr.StripKeepsPrefix` | pre_commit_hooks/add_header.py:86 | a leading part with non-whitespace ends survives `strip()` |
| `PyStr.Strip` | pre_commit_hooks/add_header.py:80 | defines `str.strip()` over Python's whitespace set; `StripShape` and `StripIsTrimmedSlice` prove it returns the one slice with whitespace-only flanks and non-whitespace ends |
| `PyStr.JoinSplit` | pre_commit_hooks/add_header.py:35-36 | `"\n".join(s.split("\n")) == s` |
| `PyStr.SplitJoin` | pre_commit_hooks/add_header.py:36 | splitting a join of newline-free pieces gives back the pieces |
| `PyStr.SplitOnNewline` | pre_commit_hooks/add_header.py:35 | defines `s.split("\n")`: at least one piece, none holding a newline; `JoinSplit` and `SplitJoin` prove it inverse to `JoinLines` |
| `PyStr.JoinLines` | pre_commit_hooks/add_header.py:36 | defines `"\n".join(pieces)`; `JoinSplit`, `SplitJoin` and `JoinAppend` give its meaning |
| `PyStr.SplitLinesOfWritten` | pre_commit_hooks/add_header.py:70 | `splitlines()` of newline-terminated lines gives back those lines |
| `PyStr.SplitLines` | pre_commit_hooks/add_header.py:70 | defines `splitlines()` for `\n` boundaries: a final newline opens no empty line and `""` gives no line; `SplitLinesOfWritten` gives its meaning |

## Left out

- The `subprocess.run` calls to `git log` (add_header.py:31-34, 41-44) are process I/O. Their stdout strings are parameters.
- `datetime.now()` (add_header.py:45) is a clock read. The current year is a parameter.
- `Path.exists`, `read_text` and `write_text` (add_header.py:50-54, 70, 98) are file I/O. The LICENSE file is an `Option<string>`. The target file is its list of lines. The write is the returned `Option<string>`.
- `splitlines()` when the file is read (add_header.py:70) is not modelled. Its output, the list of lines, is the input. Reading the written text back in `Idempotence` uses `SplitLines`, which treats only `'\n'` as a line boundary. Python also breaks lines at `\r`, `\x0b`, `\x0c`, `\x1c`-`\x1e`, `\x85`, `\u2028` and `\u2029`. The idempotence lemmas hold for texts without those characters.
- `LicenseType`: `lower()` is modelled as an ASCII fold, not Python's full Unicode lower-casing. Non-ASCII case mappings are not captured.
- `Idempotence.ProcessFileIdempotent`, `Idempotence.WrittenFileLayout` and `Idempotence.HeaderFacts`: require the year string to be a single line. A multi-line `git log -1` output could contain a sentinel line of its own, and that would break idempotence.
- The `__main__` loop over `sys.argv` (add_header.py:101-103) is command-line plumbing.
- setup.py is packaging and is not part of this model. It holds the `setuptools.setup` call and the `read` helper, which is file I/O. Its console entry point (setup.py:32) names `pre_commit_hooks.add_header:main`, a function the module does not define. That is a packaging problem outside the hook's logic.
