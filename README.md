# Defanged Logger — a Dafny model

`Logger` (logger.py) is a thin wrapper around Python's `logging` module. It
adds two things, and this project models both:

- **Defanging.** Each logging method takes a `resource`: None, a string, or a
  list of strings. Before the method formats its message, the `defang`
  decorator rewrites the resource so that URL-like text cannot be clicked.
  It replaces `http` by `hxxp`, then `://` by `[://]`, then `.` by `[.]`, and
  wraps the result in double quotes. A list is rewritten element by element.
  Any exception turns the resource into None, and the call goes ahead with
  None.
- **Level walking.** The object keeps its current minimum severity
  (`log_level`, INFO at first). `lower_log_level` and `raise_log_level` move
  it one step along the five-level table DEBUG < INFO < WARNING < ERROR <
  CRITICAL (10, 20, 30, 40, 50). They stop at either end instead of failing.

Modules:

- `Wrappers` (wrappers.dfy): the `Option` type.
- `Strings` (strings.dfy): substring occurrence, and Python's `str.replace`
  as the function `Replace`: scan left to right, replace each match, skip
  past it. It also holds general facts about `Replace`: a missing pattern
  changes nothing, a lone occurrence is the only change, and a replacement
  text creates no new occurrence of a pattern it shares no character with.
- `Defang` (defang.dfy): the string transform (`DefangString`) and the list
  loop (`DefangList`, a method, proved equal to the functional
  `DefangItems`). It also holds the decorator's error policy (`Defang`), the
  calls the wrapper makes (`WrapperCalls`), and how a logging method spreads
  the resource into `str.format` (`FormatArgs`).
- `Levels` (levels.dfy): the level table, `list.index`, the one-step moves
  as functions, and walks made of several moves.
- `DefangedLogger` (logger.dfy): class `Logger`. It has the mutable
  `logLevel` field, the threshold last handed to the library, and the
  invariant `logLevel in levels`.

Decisions about the source's behaviour:

- `type(resource) == str` is an exact type test. Any other iterable takes
  the list branch, so `Resource.ListRes` stands for every value that is
  iterable but not exactly a `str`, given as the elements it yields. That
  covers lists, tuples, bytes, and also a subclass of `str`, which is
  iterated one character at a time. `OtherRes` is a value that cannot be
  iterated, such as a number. Iterating it raises, and the resource becomes
  None.
- The bare `except:` at logger.py:73 also catches exceptions raised by the
  decorated method itself. One example is `message.format(*[])` for a
  message with a placeholder. So the method can be entered twice: first
  with the defanged value, then with None. `WrapperCalls` models this, with
  the method's raising given as a parameter. The second call, at
  logger.py:74, is outside the `try`, so an exception it raises escapes the
  wrapper. For example, `"{} {}".format(None)` raises `IndexError`. So a
  logging call can itself raise, even though the decorator catches
  everything once.
- The output still contains `://` and `.`, inside brackets (`SeparatorAndDotRemain`
  shows it on the class documentation's example). The code does not remove
  them, and the model does not claim it does. What is proved is that `http`
  never occurs in the output and that every dot sits inside `[.]`.
- Only the whole-string `http` → `hxxp` replacement exists in this file.
  A variant that transforms only the scheme is not part of this model.

## Model

| member | source | states |
|---|---|---|
| Strings.ReplaceAbsent | logger.py:59-61 | `str.replace` with a pattern that does not occur returns the string unchanged |
| Strings.ReplaceOnce | logger.py:59-61 | a single occurrence whose first character appears nowhere else is replaced and everything around it is kept |
| Strings.ReplaceKeepsAbsent | logger.py:60-61 | a replacement text made of characters not in `w` creates no new occurrence of `w` |
| Strings.QuoteKeepsAbsent | logger.py:62 | wrapping in double quotes creates no occurrence of a pattern without a quote |
| Defang.HttpGone | logger.py:59 | after `replace("http", "hxxp")` the string contains no `http` at all, including across `hxxp` blocks |
| Defang.DotsGetBracketed | logger.py:61 | after `replace(".", "[.]")` every dot is preceded by `[` and followed by `]` |
| Defang.QuotingKeepsDotsBracketed | logger.py:62 | the surrounding quotes keep every dot bracketed |
| Defang.DefangStringNeutralized | logger.py:59-62 | for every input string, the defanged string starts and ends with `"`, contains no `http`, and brackets every dot |
| Defang.DefangSimpleUrl | logger.py:59-62 | `http://<host>.<tld>` (parts without `h`, `:` or `.`) becomes `"hxxp[://]<host>[.]<tld>"` |
| Defang.ExampleUrl | logger.py:15-19 | the documented example `http://example.com` becomes `"hxxp[://]example[.]com"` and is passed to `format` as one argument |
| Defang.SeparatorAndDotRemain | logger.py:60-61 | `://` and `.` are bracketed, not removed: both still occur in the defanged example |
| Defang.DefangItemsElementwise | logger.py:65-71 | the list branch succeeds exactly when every element is a string; then it has the same length, and element i is the defanged element i |
| Defang.DefangList | logger.py:65-72 | the `for`/`append` loop returns None exactly when some element is not a string; otherwise the element-wise defanged list, in order |
| Defang.Defang | logger.py:56-74 | the result is "no resource" exactly when the keyword is missing, the resource is None or not iterable, or an element is not a string; a string gives its defanged text, a list its element-wise defanging |
| Defang.WrapperCalls | logger.py:55-74 | the decorated method is first called with the defanged resource (None on failure); it is called a second time, with None, only when the first call received a defanged value and raised |
| Defang.FormatArgs | logger.py:80-83 | a list is spread into positional `format` arguments in order; a string or None is the single argument |
| Defang.OnlyNeutralizedTextReachesFormat | logger.py:55-83 | every string argument that reaches `message.format`, in every call the wrapper makes, is quoted, has no `http`, and brackets every dot; a failed transform formats None |
| Levels.IndexOf | logger.py:122 | `list.index` returns the first position holding the value |
| Levels.TableAscending | logger.py:44-50 | the level table is strictly increasing |
| Levels.IndexOfTable | logger.py:44-50 | looking up entry k of the table gives back k |
| Levels.Lowered | logger.py:120-124 | lowering keeps the level in the table; DEBUG stays, any other level moves to the next lower table level |
| Levels.Raised | logger.py:127-131 | raising keeps the level in the table; CRITICAL stays, any other level moves to the next higher table level |
| Levels.LoweredIndex | logger.py:122-124 | lowering moves the table index to index − 1, clamped at 0 |
| Levels.RaisedIndex | logger.py:129-131 | raising moves the table index to index + 1, clamped at the last index |
| Levels.LowerUndoesRaise | logger.py:120-132 | a raise followed by a lower restores the level if and only if it did not start at CRITICAL |
| Levels.RaiseUndoesLower | logger.py:120-132 | a lower followed by a raise restores the level if and only if it did not start at DEBUG |
| Levels.Walk | logger.py:120-132 | any sequence of adjustments keeps the level in the table |
| Levels.RaisesClamp | logger.py:127-132 | n raises move n table positions up, clamped at CRITICAL |
| Levels.LowersClamp | logger.py:120-125 | n lowers move n table positions down, clamped at DEBUG |
| Levels.RaisesFromDebug | logger.py:44-50 | four raises from DEBUG reach CRITICAL, any further raises stay there, and a lower at DEBUG changes nothing |
| DefangedLogger.Logger.constructor | logger.py:34-50 | a new logger is at INFO, has the five-level table and its location and format, and satisfies the invariant |
| DefangedLogger.Logger.LowerLogLevel | logger.py:120-125 | keeps the invariant; the new level is `Lowered` of the old one, a no-op at DEBUG, one index down otherwise; the library threshold follows |
| DefangedLogger.Logger.RaiseLogLevel | logger.py:127-132 | keeps the invariant; the new level is `Raised` of the old one, a no-op at CRITICAL, one index up otherwise; the library threshold follows |

## Left out

- Everything that happens inside Python's `logging` module: `basicConfig`,
  `getLogger`, the `self.log.debug/info/warning/error/critical` writes, the
  log file, and filtering by severity threshold (logger.py:38-43, 81-117).
  This is library code that is not part of this model. `Logger.sinkLevel`
  only records the threshold last handed to the library. The model does not
  say which library object holds it: the root logger after `basicConfig`,
  the named logger after `setLevel`.
- The line format at logger.py:36. It is stored, but the library renders it,
  and timestamps are I/O.
- `str.format` itself. `FormatArgs` models only which positional arguments
  `message.format` receives. Whether formatting raises is the parameter
  `raises` of `WrapperCalls`.
- The five logging methods `debug`, `info`, `warning`, `error` and `critical`
  (logger.py:77-117). They differ only in the library call they make. Their
  shared branch is `FormatArgs`, and their decoration is `WrapperCalls`.
- The uncaught `KeyError` when `message` is not passed by keyword
  (logger.py:63, 72, 74), and the decorator and `functools.wraps` mechanics
  in general.
- Strings.Replace: models `str.replace` only for a non-empty pattern. Every
  call in the source uses a non-empty constant, and Python treats an empty
  pattern differently.
- Python strings are sequences of code points; the model uses `seq<char>`.
  The transform is case-sensitive in both, so no normalisation or case
  folding is modelled.
