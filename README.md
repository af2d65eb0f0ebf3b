# filegen in Dafny

A model of `filegen.py`, a small generator of C++ class skeletons. Given a
class name and a whitespace-separated list of namespaces, `FileGenerator`
does the following:

- It checks every namespace and then the stripped class name with
  `isAlphaNum`, and raises on the first name that fails.
- It fills four text templates by chains of `str.replace`: the header
  banner, the class declaration, the source banner and the member
  definitions.
- It writes a header file (`<stem>.h`) and a source file (`<stem>.cpp`). Each
  file is wrapped in one `namespace … { … }` block per namespace. `getFileName`
  drops a legacy `C`/`I` prefix from the stem.

The project has these modules:

- `wrappers.dfy`: `Option` and `Result`.
- `identifiers.dfy`: the two regular expressions of the program. Each pattern
  is an anchored sequence of character classes, matched against the front of
  a string, optionally ignoring ASCII case. This module also holds
  `isAlphaNum` and `getFileName`.
- `text.dfy`: the parts of Python's `str` the program uses:
  - `split()` and `strip()`, with Python's full whitespace set;
  - `replace`, which replaces every non-overlapping occurrence from left to
    right.
- `templates.dfy`: the four templates, written as lists of segments (literal
  text and placeholder slots) whose spelling is the template text. `Render`
  fills every slot at once and is the reference: the replace chains of
  `instantiate` are proved equal to it.
- `dates.dfy`: the `strftime("%d-%b-%Y")` stamp, with its parser. The
  parser shows that the stamp determines the date.
- `generator.dfy`: the `FileGenerator` object and its parts:
  - the validation, as a function `Validate`;
  - the namespace wrapping;
  - a `FileGenerator` class whose methods mirror `__init__`, `instantiate`,
    `writeNamespaceOpening`, `writeNamespaceClosing` and `write`;
  - the files written, as a `TextFile` class;
  - the working directory, as a `Directory` class holding a map from file
    name to contents.

How the model represents the source:

- **Errors.** `__init__` either raises a `RuntimeError` or finishes its work.
  In the model it is the static method `FileGenerator.Create`. `Create`
  returns a `Result` whose error is a `GenError`, and `Message` gives the
  error's exact text. On success, `Create` calls the constructor, which runs
  `instantiate` and then `write`.
- **Templates.** The four templates are module-level constants of the
  program, collected in `Templates.TemplateTexts`. The object receives them as
  the constructor argument `templates` and keeps them in a `const` field. The
  lemmas about what the files contain (`GeneratedFiles`, `InstantiateRenders`)
  are stated for `TemplateTexts`.
- **The clock.** `datetime.now()` is an argument of type `CalendarDate`.
  `instantiate` formats it itself, as the program does.

Behaviour taken from the code, where one might expect otherwise:

- **Both files are always written.** Nothing in `write` skips the source
  file, so no variant of the program writes a header alone.
- **`isAlphaNum` looks at two characters only.** Its pattern has no end
  anchor, so only the first two characters are examined. A name such as
  `ab-c!` is accepted. The model keeps this behaviour (`IsAlphaNumIgnoresTail`).
- **Namespace braces need not balance.** For the same reason a namespace
  such as `ab{` is accepted, and its `{` lands in the generated file next to
  the ones the wrapping writes. `WrappingBalanced` counts the braces for every
  list of names, and `UnbalancedNamespaceAccepted` shows `ab{ cd` accepted
  with three `{` against two `}`.

## Model

| member | source | states |
|---|---|---|
| Identifiers.IsAlphaNum | filegen.py:47-49 | defines `isAlphaNum` as the pattern `^[a-z_][a-z0-9_]`, matched case-insensitively against the start of the word; `IsAlphaNumIff` says what it accepts without the pattern |
| Identifiers.IsAlphaNumIff | filegen.py:47-49 | a word is accepted exactly when it has at least two characters, the first an ASCII letter of either case or `_`, the second a letter, digit or `_` (both directions) |
| Identifiers.IsAlphaNumIgnoresTail | filegen.py:47-49 | only the first two characters decide: appending anything changes nothing, and the verdict equals that on the two-character prefix |
| Identifiers.IsAlphaNumTooShort | filegen.py:47-49 | the empty string and every one-character string are rejected |
| Identifiers.HasLegacyPrefixIff | filegen.py:52 | the case-sensitive prefix test holds exactly when the name starts with `I` or `C` followed by an upper-case ASCII letter |
| Identifiers.GetFileName | filegen.py:51-54 | defines `getFileName`: the class name, without its first character when it starts with `I` or `C` followed by an upper-case ASCII letter (a case-sensitive test), then `.` and `h` or `cpp`; `GetFileNameStem` and `FileNamePair` specify it |
| Identifiers.GetFileNameStem | filegen.py:51-54 | the file name is the class name, minus its first character exactly when the legacy prefix is present, plus `.h` or `.cpp` |
| Identifiers.FileNamePair | filegen.py:51-54 | the header and source names share one stem, end in `.h` and `.cpp`, and are never equal |
| Identifiers.GetFileNameChars | filegen.py:51-54 | a file name holds no character that is neither in the class name nor in its own extension, `.h` for the header and `.cpp` for the source |
| Identifiers.FileNameExamples | filegen.py:51-54 | `CFoo` gives `Foo.h` and `Foo.cpp`, `IFoo` gives `Foo.h`, and `Widget` and `Cat` keep their names |
| Text.IsSpace | filegen.py:59-64 | the characters Python's `split()` and `strip()` treat as whitespace: tab to carriage return, the four separators U+001C to U+001F, space, U+0085, U+00A0, U+1680, U+2000 to U+200A, U+2028, U+2029, U+202F, U+205F and U+3000 |
| Text.Split | filegen.py:59 | defines `split()` with no argument: the maximal runs of non-whitespace characters, in order; `SplitInterleave` and `SplitDecomposes` together determine it on every input, and `SplitWords` and `SplitKeepsAllText` state what its words are |
| Text.SplitWords | filegen.py:59 | every word of `split()` is non-empty and free of whitespace |
| Text.SplitKeepsAllText | filegen.py:59 | the words of `split()`, concatenated in order, are the input without its whitespace |
| Text.SplitJoinWords | filegen.py:59 | splitting non-empty, whitespace-free words joined by single spaces (or any one whitespace character) gives back the same words in the same order |
| Text.SplitSkipsSpace | filegen.py:59 | any amount of leading whitespace leaves the split unchanged |
| Text.SplitInterleave | filegen.py:59 | a string made of non-empty whitespace-free words, with a non-empty whitespace run between each two words and any whitespace (or none) at either end, splits to exactly those words, in order |
| Text.SplitDecomposes | filegen.py:59 | every string is its split words laid out between whitespace runs of that kind, so with `SplitInterleave` the split is the only such list of words |
| Text.SplitExample | filegen.py:59 | ` \tui  core\n` splits to `ui` and `core` |
| Text.Strip | filegen.py:60-64 | defines `strip()`: the input with its leading and trailing whitespace removed; `StripSlice` specifies it as the unique such slice |
| Text.StripSlice | filegen.py:60-64 | `strip()` returns a contiguous slice of its input, with only whitespace around it and no whitespace at either end |
| Text.StripNoSpace | filegen.py:60 | `strip()` leaves a whitespace-free word unchanged, so the `strip` of each split namespace is a no-op |
| Templates.Tag | filegen.py:6-45 | a placeholder tag is at least three characters long and begins and ends with `%` |
| Templates.TagSpelling | filegen.py:6-45 | the four tags are spelled `%classname%`, `%hdrfile%`, `%srcfile%` and `%date%` |
| Templates.HdrLayout | filegen.py:6-14 | the header banner template is well formed and has exactly the slots `%hdrfile%`, `%classname%` and `%date%` |
| Templates.HdrBodyLayout | filegen.py:16-24 | the class declaration template is well formed and has only the slot `%classname%` |
| Templates.SrcHeaderLayout | filegen.py:26-35 | the source banner template is well formed and has exactly the slots `%srcfile%`, `%classname%`, `%date%` and `%hdrfile%` |
| Templates.SrcBodyLayout | filegen.py:37-45 | the definitions template is well formed and has only the slot `%classname%` |
| Templates.HdrTemplateText | filegen.py:6-14 | `hdrTemplate` is, character for character, the `@file`, `@brief`, `@author` and `@date` lines, an empty line, `#pragma once` and an empty line |
| Templates.HdrBodyTemplateText | filegen.py:16-24 | `hdrBodyTemplate` is, character for character, the description comment and the class declaration with its explicit constructor and virtual destructor |
| Templates.SrcHeaderTemplateText | filegen.py:26-35 | `srcHeaderTemplate` is, character for character, the four banner lines for the source file, an empty line, and the includes of `stdafx.h` and of the header file, then an empty line |
| Templates.SrcBodyTemplateText | filegen.py:37-45 | `srcBodyTemplate` is, character for character, the empty constructor definition, an empty line and the empty destructor definition |
| Text.ReplaceAll | filegen.py:76-84 | defines `replace`: occurrences of the pattern, found left to right without overlap, are replaced; `Templates.ReplaceAllFills` checks it against filling a template's slots |
| Templates.ReplaceAllFills | filegen.py:76-84 | one `replace` of a placeholder by a `%`-free value turns exactly that placeholder's slots into the value |
| Templates.ReplaceEach | filegen.py:76-84 | defines a chain of `replace` calls: each listed placeholder's tag replaced by its value, in the listed order, each call on the result of the one before; `ReplaceEachRenders` ties it to filling all slots |
| Templates.ReplaceEachRenders | filegen.py:76-84 | a chain of `replace` calls that covers every slot of a well-formed template, with `%`-free values, equals filling all slots at once |
| Templates.InstantiateFrom | filegen.py:71-84 | defines what `instantiate` stores: each template put through the program's own chain of `replace` calls, in the program's order; `InstantiateRenders` ties it to filling every slot |
| Templates.InstantiateRenders | filegen.py:71-84 | for a class name and date without `%`, each of the four instantiated texts is its template with every placeholder filled, and none holds a `%` |
| Templates.InstantiateLeavesNoTag | filegen.py:71-84 | for a class name and date without `%`, no placeholder tag remains in any instantiated text |
| Dates.Digits | filegen.py:75 | a zero-padded number has exactly the requested width and only decimal digits |
| Dates.DigitsRoundTrip | filegen.py:75 | reading back the zero-padded digits gives the number, when it fits in the width |
| Dates.Format | filegen.py:75 | the `%d-%b-%Y` stamp is 11 characters long, with dashes at positions 2 and 6 |
| Dates.ParseFormat | filegen.py:74-75 | parsing the stamp of a date gives that date back |
| Dates.FormatInjective | filegen.py:74-75 | different dates get different stamps |
| Dates.FormatNoPercent | filegen.py:74-75 | a stamp never contains `%`, so the date cannot introduce a placeholder |
| Generator.Message | filegen.py:62-67 | defines the `RuntimeError` text for a rejected namespace or class name; `MessageQuotesName` specifies it |
| Generator.MessageQuotesName | filegen.py:62-67 | the error text names the kind of name and then quotes the offending name exactly |
| Generator.FirstInvalid | filegen.py:59-63 | it gives none exactly when every name is accepted, and otherwise the index of a rejected name with all earlier ones accepted |
| Generator.Validate | filegen.py:57-67 | it succeeds exactly when every split namespace and the stripped class name are accepted, and then it keeps the namespaces in order and the stripped name |
| Generator.NamespacesCheckedFirst | filegen.py:59-67 | the first rejected namespace is the error, whatever the class name |
| Generator.ClassNameError | filegen.py:64-67 | once all namespaces pass, the run fails exactly when the stripped class name is rejected, with that name in the error |
| Generator.NamespacesRoundTrip | filegen.py:59-67 | accepted whitespace-free namespaces, typed with any non-empty whitespace between them and any at either end, are kept as the same list, in order |
| Generator.LinesText | filegen.py:86-92 | the lines written for one namespace make up its opening, and the closing lines make up its closing |
| Generator.Openings | filegen.py:86-88 | defines what `writeNamespaceOpening` writes: `namespace <name>`, `{` and an empty line for each namespace, outermost first; `OpeningsAppend` and `OpeningsBraces` specify it |
| Generator.OpeningsAppend | filegen.py:86-88 | the openings of a concatenated list of namespaces are the openings of each part, in order |
| Generator.OpeningBraces | filegen.py:88 | one opening adds exactly one `{` to the braces of the name itself, and no `}` |
| Generator.OpeningsBraces | filegen.py:86-88 | the openings hold one `{` per namespace plus the names' own `{`, and only the names' own `}` |
| Generator.Closings | filegen.py:90-92 | defines what `writeNamespaceClosing` writes: an empty line and `}` once per namespace; `ClosingsBraces` specifies it |
| Generator.ClosingsBraces | filegen.py:90-92 | the closings hold one `}` per namespace and no `{` |
| Generator.WrappingBalanced | filegen.py:86-92 | the wrapping holds one `{` and one `}` per namespace on top of the names' own braces, so it is balanced exactly when the names hold as many `{` as `}`, and holds exactly one pair per namespace when they hold none |
| Generator.UnbalancedNamespaceAccepted | filegen.py:47-92 | the namespace list `ab{ cd` passes validation, and its wrapping opens three braces but closes two |
| Generator.FileText | filegen.py:94-105 | defines the text of one generated file: banner, openings, body, closings; `BothFilesWritten` and `GeneratedFiles` state what the two files hold |
| Generator.Generate | filegen.py:57-69 | a run fails exactly when validation fails, and then with the validation's error |
| Generator.Written | filegen.py:94-105 | defines the directory after `write`: the header file name maps to the header text and the source file name to the source text, every other entry as before; `BothFilesWritten` specifies it |
| Generator.BothFilesWritten | filegen.py:94-105 | `write` stores two distinct files, the header and the source, each with the header text, openings, body and closings, and leaves every other file alone |
| Generator.GeneratedFiles | filegen.py:57-105 | a successful run with the program's templates writes the rendered banner, the openings, the rendered body and one closing per namespace to the `.h` file, and likewise to the `.cpp` file |
| Generator.StampedTexts | filegen.py:71-84 | with a stamp of a real date, the instantiated texts contain a `%` only if the class name does |
| Generator.TextFile.Open | filegen.py:95-101 | `open(name, mode='w')` gives a file with that name and no contents yet |
| Generator.TextFile.Write | filegen.py:96-104 | `f.write(s)` appends `s` to what the file holds |
| Generator.TextFile.WriteLines | filegen.py:88 | `writelines` appends the lines one after another, with nothing in between |
| Generator.TextFile.Close | filegen.py:95-105 | leaving the `with` block stores the contents under the file's name in the directory, replacing any earlier file of that name and leaving the other files alone |
| Generator.FileGenerator.Create | filegen.py:57-69 | the run's outcome is `Generate`: on an error nothing is written; on success the directory holds both files, and the object keeps the split namespaces, the stripped class name and the instantiated texts |
| Generator.FileGenerator.constructor | filegen.py:68-69 | `instantiate` and then `write`: the fields are the instantiated texts and the directory gains exactly the two files |
| Generator.FileGenerator.Instantiate | filegen.py:71-84 | formats the date and stores in the four text fields the instantiation of the templates for the class name and that date, leaving the namespaces and class name alone |
| Generator.FileGenerator.ReplaceChains | filegen.py:72-84 | the nine `replace` calls, in the program's order, produce the instantiation of the templates for the class name and the date |
| Generator.FileGenerator.WriteNamespaceOpening | filegen.py:86-88 | appends the openings of all namespaces, outermost first |
| Generator.FileGenerator.WriteNamespaceClosing | filegen.py:90-92 | appends one closing per namespace |
| Generator.FileGenerator.Write | filegen.py:94-105 | stores the header file and then the source file, each the header text, openings, body and closings |
| Generator.FileGenerator.WriteFile | filegen.py:95-99 | one `with open(…, 'w')` block replaces the named file with banner, openings, body and closings |

## Left out

- The Tk user interface (`Application`, `createFile`) is not part of this
  model. That includes its check for an empty class name and its message
  boxes.
- Real file I/O is not modelled. `open(…, 'w')` becomes a `TextFile` that
  replaces the named entry of a `Directory` map when it is closed. Newline
  translation, encodings and write errors are not modelled, so neither is
  the header file left behind when the second `open` or a write fails.
  `instantiate` runs before any file is opened, so it leaves no file.
- The clock is not modelled. `datetime.now()` is an argument, and
  `Dates.Valid` admits only four-digit years, because for years below 1000
  `%Y` does not give four digits on every platform. `Dates.Valid` bounds the day by 31 only, so it also admits
  dates such as 31 February that `datetime` rejects. The locale is fixed to
  the C locale's month abbreviations.
- `re.IGNORECASE` is modelled on ASCII letters only. Python also folds some
  non-ASCII characters (for example the Kelvin sign) onto `k`, which this
  model does not.
- Templates.InstantiateRenders: holds only for a class name and a date
  without `%`. A `%` in the class name, which `isAlphaNum` lets through after
  the second character, can form a placeholder that a later `replace` in
  the chain rewrites. The replace chain itself (`ReplaceEach`,
  `FileGenerator.Instantiate`) is modelled for every input.
- Generator.GeneratedFiles: requires the same `%`-free class name and date.
- Generator.FileGenerator.Create: requires a `CalendarDate` with a
  four-digit year, as described above.
- The namespace list is built in a local sequence inside `Create`'s
  validation loop and is handed to the constructor. The program appends to
  `self.namespaces` directly, but nothing can see that list before
  validation ends.
