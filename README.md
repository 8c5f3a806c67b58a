# vim-pep8 checker core in Dafny

This project models the logic of the `Pep8Checker` class from the vim-pep8 plugin
(`ftplugin/python/pep8checker.py`). The plugin runs an external style checker on the
current editor buffer and turns its report into (line number, message) pairs that the
editor shows. It caches those pairs by a digest of the buffer text. The model covers:

- **the FIFO result cache** (`check`). The buffer's lines are joined into one text, each
  line followed by a newline. The text's digest is looked up in a cache of (key, diagnostics)
  entries, kept oldest first. A hit returns the stored diagnostics and changes nothing. On a
  miss, the oldest entry is evicted once the number of entries *exceeds* `cache_limit`. Then
  the checker runs and its result is stored last. The cache can therefore hold
  `cache_limit + 1` entries. `Checker.Pep8Checker` is a class whose `cache` field is a
  sequence of entries. `Check` updates it in place and is specified by the pure function
  `Checker.Step`. The lemmas prove the properties of `Step`.
- **the exit-code dispatch** of `_check`. Exit code 0 and any code above 1 give an empty
  result. Code 1 goes on to parse the output. A negative code matches none of the three
  branches, so it also goes on to parse.
- **the report parser** of `_check`. Standard output is split on `"\n"` and lines that
  `strip()` would empty are skipped. Each other line is unpacked by three `split(':', 1)`
  calls, keeping the second field (the line number) and everything after the third colon
  (the message). A line with fewer than three colons makes the unpacking raise.
  `Report.ParseReport` is the loop. `Report.ParseLines` is the function that specifies it.

Modules: `Wrappers` holds `Option` and `Result`. `Strings` holds find, `split(sep, 1)`,
`split(sep)` and `join`. `Report` is the parser. `Checker` holds the dispatch, the cache
step and the class.

Exceptions are results. `Checker.Error.MalformedLine` stands for the `ValueError` of a short
line. `Checker.Error.PopFromEmpty` stands for the `KeyError` that `popitem` raises on an
empty dictionary. That can only happen when `cache_limit` is negative, because
`len(cache) > cache_limit` then holds for the empty cache. The model follows the code's
order of effects: eviction happens before `_check` runs. If `_check` raises, the oldest entry
is already gone and nothing is stored.

Three behaviours of the code are easy to misread, and the model follows the code:

- Eviction fires only when the count is strictly greater than `cache_limit`. It does not
  fire when the count equals the limit.
- Negative exit codes are parsed. They are not suppressed.
- A parse failure still leaves the earlier eviction in effect.

Inputs from outside the program are parameters:

- The digest is an arbitrary `string -> string` function, fixed when the checker is
  constructed.
- The checker process is represented by its exit code and standard output
  (`Checker.ProcessResult`), passed to each `Check` call. On a hit they are ignored.
- A ghost counter `invocations` records how many times `_check` was entered. A hit
  never starts the checker.

## Model

| member | source | states |
|---|---|---|
| `Checker.Pep8Checker.constructor` | ftplugin/python/pep8checker.py:12-15 | a new checker keeps the digest and the limit (default 10) and starts with an empty cache, which satisfies the cache invariant |
| `Checker.Pep8Checker.Check` | ftplugin/python/pep8checker.py:17-30 | the result and the new cache are exactly those of `Step` for the digest of the joined buffer and the checker's outcome; the cache invariant is kept; the checker is started once on a miss whose eviction succeeded and never on a hit |
| `Checker.BufferText` | ftplugin/python/pep8checker.py:22 | the text passed to the checker is never empty and always ends in a newline |
| `Checker.BufferTextNewlines` | ftplugin/python/pep8checker.py:22 | the text holds the lines' own newlines plus one terminator per buffer line (one for an empty buffer) |
| `Checker.BufferTextLines` | ftplugin/python/pep8checker.py:22 | for a non-empty buffer of newline-free lines, splitting the text on newlines gives the buffer back followed by one empty piece |
| `Checker.Lookup` | ftplugin/python/pep8checker.py:24-25 | the lookup finds something exactly when the key is among the cache's keys, and what it finds is stored under that key |
| `Checker.Evict` | ftplugin/python/pep8checker.py:27-28 | defines the eviction: the oldest entry is dropped when the count exceeds the limit, and an empty cache makes `popitem` raise; specified by `StepMiss` and `StepAtLimitGrows` |
| `Checker.Step` | ftplugin/python/pep8checker.py:22-29 | defines one call of `check` on a digest and the outcome of `_check`: result and new cache; specified by `StepHit`, `StepMiss`, `StepKeepsInvariant`, `ReplayKeepsInvariant` and `ReplayIsNewestStored`, and implemented by `Pep8Checker.Check` |
| `Checker.StepHit` | ftplugin/python/pep8checker.py:22-25 | on a hit, `check` returns the diagnostics stored under the key and leaves the cache unchanged |
| `Checker.StepMiss` | ftplugin/python/pep8checker.py:27-29 | on a miss, at most one entry is removed, the oldest, and only when the count exceeds the limit; the remaining entries keep their values and order; when `_check` returns, its result is the call's result and is stored last under the key; when `_check` raises, nothing is stored; popping an empty cache raises |
| `Checker.StepKeepsInvariant` | ftplugin/python/pep8checker.py:27-29 | every call keeps the keys unique and the number of entries at most `cache_limit + 1` (zero for a negative limit) |
| `Checker.StepAtLimitGrows` | ftplugin/python/pep8checker.py:27-29 | a cache holding exactly `cache_limit` entries is not evicted: a miss grows it to `cache_limit + 1` with the new entry last |
| `Checker.ReplayKeepsInvariant` | ftplugin/python/pep8checker.py:15-29 | from the empty cache of a new checker, any series of calls leaves a cache of unique keys and at most `cache_limit + 1` entries |
| `Checker.ReplayIsNewestStored` | ftplugin/python/pep8checker.py:27-29 | after any series of calls, the cache is exactly the most recently stored entries in storing order, so eviction is first in, first out |
| `Checker.Dispatch` | ftplugin/python/pep8checker.py:50-58 | the output is parsed exactly when the exit code is 1 or negative, and the result is empty exactly when the code is 0 or above 1 |
| `Checker.CheckOutput` | ftplugin/python/pep8checker.py:50-71 | defines the result of `_check` for a process outcome: the dispatch, then the report parse with a malformed line as `MalformedLine`; specified by `CheckOutputCases` and implemented by `RunChecker` |
| `Checker.RunChecker` | ftplugin/python/pep8checker.py:50-71 | `_check` without its I/O returns the empty result for exit codes 0 and above 1, and otherwise the parsed report or the malformed-line error |
| `Checker.CheckOutputCases` | ftplugin/python/pep8checker.py:50-71 | codes 0 and above 1 give no diagnostics; for code 1 and negative codes the check succeeds exactly when every non-blank output line is well formed |
| `Strings.IndexOf` | ftplugin/python/pep8checker.py:67-69 | the position found holds the character and no earlier position does; the end is returned exactly when the character is absent |
| `Strings.SplitOnce` | ftplugin/python/pep8checker.py:67-69 | defines `s.split(c, 1)` unpacked into two names, with `None` where the unpacking raises; specified by `SplitOnceSpec` and `SplitOnceAt` |
| `Strings.SplitOnceSpec` | ftplugin/python/pep8checker.py:67-69 | `split(c, 1)` yields two fields exactly when `c` occurs; the first field is then `c`-free and the two fields around `c` rebuild the string |
| `Strings.SplitOnceAt` | ftplugin/python/pep8checker.py:67-69 | splitting once after a separator-free prefix gives back that prefix and the rest unchanged |
| `Strings.Split` | ftplugin/python/pep8checker.py:64 | defines `s.split(sep)`, which always yields at least one piece; specified by `SplitCount`, `SplitPiecesSeparatorFree`, `JoinSplit`, `SplitJoin` and `SplitTrailing` |
| `Strings.Join` | ftplugin/python/pep8checker.py:22 | defines `sep.join(parts)`; specified by `JoinCount`, `JoinSplit` and `SplitJoin` |
| `Strings.SplitCount` | ftplugin/python/pep8checker.py:64 | `split(sep)` yields one piece more than there are separators |
| `Strings.SplitPiecesSeparatorFree` | ftplugin/python/pep8checker.py:64 | no piece of `split(sep)` holds the separator |
| `Strings.JoinSplit` | ftplugin/python/pep8checker.py:64 | joining the pieces of a split with the same separator gives the original string |
| `Strings.SplitJoin` | ftplugin/python/pep8checker.py:22 | splitting a join of separator-free parts gives the parts back |
| `Strings.JoinCount` | ftplugin/python/pep8checker.py:22 | a join holds the parts' own separators and one more between each pair of neighbours |
| `Strings.SplitTrailing` | ftplugin/python/pep8checker.py:64 | a separator at the end of a string adds exactly one empty last piece to its split |
| `Report.IsSpace` | ftplugin/python/pep8checker.py:65 | the characters that `strip()` removes from a Python 2 byte string: space and tab, line feed, vertical tab, form feed and carriage return (`'\t'` to `'\r'`); no other character counts as blank |
| `Report.IsBlank` | ftplugin/python/pep8checker.py:65 | a line that `strip()` empties, i.e. one made only of `IsSpace` characters, the empty line included; the loop skips it (see `NonBlank`, `FormatLineChars`) |
| `Report.ParseLine` | ftplugin/python/pep8checker.py:67-70 | defines the three `split(':', 1)` unpackings of one line, keeping the line number and the message; specified by `ParseLineColons`, `ParseFormat` and `ParseLineShape` |
| `Report.ParseLineColons` | ftplugin/python/pep8checker.py:67-69 | a line yields a diagnostic exactly when it holds at least three colons, and the line number it yields is colon-free |
| `Report.ParseFormat` | ftplugin/python/pep8checker.py:67-70 | round trip: `path:line:col:msg` with colon-free path, line and column yields (line, msg), with the message kept verbatim even when it holds colons |
| `Report.ParseLineShape` | ftplugin/python/pep8checker.py:67-70 | every line that yields a diagnostic is `path:line:col:msg` for some colon-free path and column and the line number and message it yielded |
| `Report.FormatLineChars` | ftplugin/python/pep8checker.py:65 | a formatted report line is never skipped as blank and holds a newline only if one of its fields does |
| `Report.NonBlank` | ftplugin/python/pep8checker.py:64-66 | the lines the loop does not skip are no more than the input lines and none of them is blank |
| `Report.ParseLines` | ftplugin/python/pep8checker.py:62-71 | defines the report loop over a list of lines: skip blank lines, append each line's diagnostic, stop at the first malformed line; specified by `ParseLinesSucceeds`, `ParseLinesInOrder`, `ParseLinesFailure` and `ParseLinesFailureSticks`, and implemented by `ParseReport` |
| `Report.ParseLinesSucceeds` | ftplugin/python/pep8checker.py:62-71 | parsing succeeds exactly when every non-blank line holds at least the three fields |
| `Report.ParseLinesInOrder` | ftplugin/python/pep8checker.py:62-71 | a successful parse yields exactly one diagnostic per non-blank line, the k-th one from the k-th non-blank line, so order is kept and blank lines yield nothing |
| `Report.ParseLinesFailure` | ftplugin/python/pep8checker.py:64-69 | a failed parse names the first malformed line: it is not blank, it does not unpack, and every line before it parses |
| `Report.ParseLinesFailureSticks` | ftplugin/python/pep8checker.py:64-69 | once a prefix of the lines fails, the lines after it do not change the outcome |
| `Report.ParseReport` | ftplugin/python/pep8checker.py:62-71 | the parsing loop over `stdout.split("\n")` returns what `ParseLines` gives for those lines, stopping at the first malformed line |
| `Report.OneLineReport` | ftplugin/python/pep8checker.py:62-71 | output made of one non-blank, well-formed line yields exactly that line's diagnostic |
| `Report.TrailingNewline` | ftplugin/python/pep8checker.py:64-66 | a final newline after the report adds nothing to the result |
| `Report.SingleViolationReport` | ftplugin/python/pep8checker.py:62-71 | the report `f.py:3:1:E302 ...` shape, with or without its final newline, yields exactly the pair (line number, message) |

## Left out

- Process execution: the `Popen` call with `shell=True`, `communicate`, and the command string built from `cmd` and the temporary path (lines 45-49). The process outcome is a parameter of `Check`. For the same reason the `cmd` field is not part of the class.
- Temporary files: `mkstemp`, `os.write`, `os.close` and `os.unlink` (lines 36-43, 59-60). Their clean-up on every path is a property of the file system, not of the logic.
- The MD5 digest (line 23) is an arbitrary function fixed at construction. Collisions are not reasoned about. The model, like the code, returns whatever is stored under a colliding key.
- `ordered_dict.OrderedDict` is not part of this model. The cache is a sequence of entries with unique keys. The model relies only on insertion order, on `popitem(0)` removing the first entry, and on `popitem` raising on an empty dictionary.
- The Python 2 `unicode`/`str` type assertion (line 33) and the Vim integration.
- Exceptions raised by I/O inside `_check` are not modelled. Only the two exceptions that the logic itself can raise are: the failed unpacking and the empty `popitem`.
- `Report.ParseLines`: the failure carries the malformed line, not the text of Python's `ValueError` message.
- Dictionary hashing: `key in cache` and `cache[key]` are modelled as a search over the entries. Lookup cost is not modelled.
