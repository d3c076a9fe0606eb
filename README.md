# fired: command interpreter and listing engine

A Dafny model of the core of `fired`, a small interactive file-manager shell (`src/main.cc`).
Each line the user types goes through the following stages:

- **Tokenizer.** The line is split into words on C-locale whitespace, as
  `std::istringstream >>` does.
- **Dispatcher.** The first word is the verb and the rest are its arguments. The verb
  selects one action from a fixed table.
- **Listing verbs (`fd`, `ls`).** These run in three steps:
  - The flags are parsed: `--hidden`, `-e`, `-p EXT` or `-pEXT`, and any one-letter
    token to sort.
  - A directory snapshot is filtered.
  - The result is sorted by name if requested.
- **Printing.** The listing is printed as a table. Each row holds a name left-justified
  in 25 columns and a human-readable size right-justified in 7 columns.

Modules, one per file:

| module | file | what it holds |
|---|---|---|
| `Text` | `text.dfy` | Characters and small helpers: C-locale `isspace`, ASCII `isalpha`, `rfind(p, 0) == 0` as `StartsWith`. |
| `Tokenizer` | `tokenizer.dfy` | The tokenizing loop, proved equal to a recursive definition of the words of a line. |
| `Dispatcher` | `dispatch.dfy` | The verb table of `process_command` as an `Action` datatype. |
| `Flags` | `flags.dfy` | The index loop of `fd_command`, proved equal to a recursive reading of the arguments. |
| `PathExt` | `path_ext.dfy` | `path::extension` / `has_extension` on a file name, following ISO/IEC 14882:2017 section 30.10.8.4.9. |
| `ByteOrder` | `byte_order.dfy` | `std::string::operator<` and the order laws a sort relies on. |
| `Listing` | `listing.dfy` | The gather loop and the sort. The sort is an in-place insertion sort on an `array`. |
| `Render` | `render.dfy` | `human_size`, `setw` padding, row layout and `print_table`. |
| `Shell` | `shell.dfy` | `process_command` end to end, and worked examples. |

The operating system is passed in as values:

- The directory iterator becomes a snapshot `scan: seq<Entry>`, in iteration order.
- `fs::file_size` becomes a map `sizes` from names to sizes. A name missing from the map
  is a size that could not be read.
- `fs::current_path()` becomes a string `cwd`.
- The mutating verbs (`cd`, `mkdir`, `rmdir`, `rm`, `touch`, `mv`, `cp`) and `pwd`,
  `clear` and `exit` are modelled up to the `Action` they select.

Behaviour of the code that a reader might not expect, and that the model keeps:

- **A verb with the wrong number of arguments is reported as unknown.** It does not
  fail silently. `cd`, `mkdir`, `rmdir`, `rm` and `touch` with no argument fall through
  the `if`/`else` chain to `Comando no reconocido: <verb>`. So do `mv` and `cp` without
  exactly two arguments (`src/main.cc:140-173`).
- **The `-p` extension filter also removes directories.** Only `-e` spares directories
  (`src/main.cc:106-108`).
- **The sort is not stable.** The code calls `std::sort`, which promises only that the
  result is ordered and is a permutation; the model promises the same. It also proves
  that this fixes the result whenever names are distinct, which is always the case in
  one directory.
- **Long names are not truncated.** `setw` pads but never cuts, so a long name pushes the
  size column to the right.

## Model

| member | source | states |
|---|---|---|
| Tokenizer.WordLen | src/main.cc:127 | The word at the front of a string ends at the first whitespace or at the end. Every character before that point is non-whitespace. |
| Text.IsSpace | src/main.cc:127 | C-locale whitespace: space, tab, newline, vertical tab, form feed and carriage return. Its use is stated by `Tokenizer.Tokenize` and `Tokenizer.TokensKeepOrder`. |
| Text.IsAlpha | src/main.cc:92 | The C-locale letters `A`-`Z` and `a`-`z`. Its use is stated by `Flags.ParseSortAlpha`. |
| Text.StartsWith | src/main.cc:88 | `rfind(p, 0) == 0`: the string begins with `p`. Its use is stated by `Flags.ParseKeepsFilter` and `Listing.FilteredSound`. |
| Tokenizer.Tokens | src/main.cc:124-127 | Every token the line yields is non-empty and contains no whitespace. |
| Tokenizer.WordEnd | src/main.cc:127 | The character loop of `operator>>` stops at the first whitespace after `i`, or at the end of the line. |
| Tokenizer.Tokenize | src/main.cc:124-127 | The `while (iss >> w) tok.push_back(w)` loop returns exactly the words of the line, in order. |
| Tokenizer.TokensSkipSpace | src/main.cc:127 | Whitespace before a word is skipped without producing a token. |
| Tokenizer.TokensTakeWord | src/main.cc:127 | A maximal whitespace-free run is the next token. |
| Tokenizer.TokensEmptyIff | src/main.cc:127-128 | A line yields no tokens (so the command returns early) if and only if it is empty or all whitespace. |
| Tokenizer.TokensKeepOrder | src/main.cc:124-127 | The tokens, concatenated, are exactly the line's non-whitespace characters in order. Nothing is dropped or added. |
| Tokenizer.TokensOfWordThenRest | src/main.cc:127 | A word followed by whitespace or by the end of the line is read as one token. |
| Tokenizer.TokensOfUnwords | src/main.cc:124-127 | Round trip: words joined by single spaces tokenize back to the same words. |
| Dispatcher.Dispatch | src/main.cc:134-173 | A verb acts if and only if its argument count fits the table: `fd`/`ls`/`pwd`/`clear`/`exit` always, one-argument verbs with at least one argument, `mv`/`cp` with exactly two. An acting verb uses a prefix of its arguments; the listing gets all of them. Any other input is reported by its verb. The dispatcher never does nothing. |
| Dispatcher.NotRecognizedMessage | src/main.cc:171-173 | The message for an unknown verb ends with that verb. |
| Dispatcher.ExtraArgumentsIgnored | src/main.cc:140-157 | `cd`, `mkdir`, `rmdir`, `rm` and `touch` use only their first argument and ignore the rest. |
| Dispatcher.TwoArgumentVerbs | src/main.cc:159-164 | `mv` and `cp` are reported as not recognized exactly when they do not have two arguments. |
| Flags.ApplyOption | src/main.cc:82-96 | The effect of one token other than a lone `-p`. Stated by `Flags.ParseShowHidden`, `Flags.ParseNoExtension`, `Flags.ParseSortAlpha` and `Flags.LaterInlineFilterWins`. |
| Flags.Parse | src/main.cc:80-97 | The flags the arguments select, read left to right. `Flags.ParseFlags` proves the loop computes it; the `Flags.Parse…` lemmas state what it selects. |
| Flags.ParseFlags | src/main.cc:79-97 | The index loop, which steps by two past `-p`, computes the same flags as the recursive reading `Parse` of the arguments. |
| Flags.ParseUnfold | src/main.cc:80-97 | One step of the loop: the first token is applied, then the rest is read. |
| Flags.ParseShowHidden | src/main.cc:82 | Hidden names are shown if and only if `--hidden` is read as an option, not as the operand of `-p`. |
| Flags.ParseNoExtension | src/main.cc:83 | Names with an extension are excluded if and only if `-e` is read as an option. |
| Flags.ParseSortAlpha | src/main.cc:92-95 | Sorting is on if and only if some one-letter alphabetic token is read as an option. |
| Flags.ParseAppend | src/main.cc:80-97 | Reading a prefix that does not end in a dangling `-p`, then reading the rest, is the same as reading the whole. |
| Flags.ParseKeepsFilter | src/main.cc:84-91 | Tokens that do not begin with `-p` never change the extension filter. |
| Flags.LaterFilterWins | src/main.cc:84-87 | The last `-p X` wins, whatever came before it. |
| Flags.LaterInlineFilterWins | src/main.cc:88-91 | The last inline `-pX` wins in the same way. |
| Flags.TrailingDashP | src/main.cc:84-86 | A lone `-p` at the end of the arguments changes nothing. |
| Flags.OperandIsNotAnOption | src/main.cc:84-87 | The token after `-p` becomes the filter even when it looks like an option, and it is not read as one. |
| PathExt.LastIndexOf | src/main.cc:107 | Finds the position of the rightmost occurrence of a character, or reports that there is none. |
| PathExt.Extension | src/main.cc:107 | An extension is either empty, or a proper suffix of the name that starts with its only period. |
| PathExt.HasExtension | src/main.cc:106 | `has_extension()`. Stated by `PathExt.HasExtensionIff` and `PathExt.DotFileHasNoExtension`. |
| PathExt.HasExtensionIff | src/main.cc:106 | A name has an extension if and only if it is not `..` and has a period after its first character. |
| PathExt.ExtensionOfJoin | src/main.cc:107 | Round trip: for `stem.ext` with no period in `ext`, the extension is `.ext`. |
| PathExt.DotFileHasNoExtension | src/main.cc:105-106 | A dot-file such as `.profile` has no extension. |
| ByteOrder.Less | src/main.cc:116 | `std::string::operator<`, lexicographic by character code. The order laws below state its properties. |
| ByteOrder.LessIrreflexive | src/main.cc:116 | No name sorts before itself. |
| ByteOrder.LessAsymmetric | src/main.cc:116 | Two names never each sort before the other. |
| ByteOrder.LessTrichotomous | src/main.cc:116 | Any two distinct names are ordered one way or the other. |
| ByteOrder.LessTransitive | src/main.cc:116 | The name order is transitive. |
| ByteOrder.NotLessTransitive | src/main.cc:116 | "Not before" is transitive, which is what a comparison sort relies on. |
| Listing.Keep | src/main.cc:105-108 | The three tests of the gather loop. Stated by `Listing.FilteredSound` and `Listing.FilteredComplete`. |
| Listing.Filtered | src/main.cc:100-111 | The entries that pass the filters, in scan order. `Listing.Gather` proves the loop computes it; `Listing.FilteredSound`, `Listing.FilteredComplete` and `Listing.FilteredIsSubsequence` state its properties. |
| Listing.Gather | src/main.cc:99-111 | The gather loop with its three `continue`s keeps exactly the entries that pass the filters, in scan order. |
| Listing.Swap | src/main.cc:115 | Exchanges two slots and leaves every other slot unchanged. |
| Listing.SortByName | src/main.cc:113-117 | Sorting in place leaves the array ordered by name and a permutation of its old contents. |
| Listing.BuildListing | src/main.cc:79-117 | Without sorting, the listing is the filtered snapshot in scan order. With sorting, it is that same multiset of entries ordered by name. |
| Listing.FilteredSound | src/main.cc:105-110 | Every listed entry passes all three filters. In particular, with `-p` every listed entry has that extension, directories included. |
| Listing.FilteredComplete | src/main.cc:105-110 | Every entry of the snapshot that passes the filters is listed. |
| Listing.FilteredIsSubsequence | src/main.cc:100-111 | The listing is the snapshot with some entries left out; the rest keep their order. |
| Listing.ShowAllListsEverything | src/main.cc:105-110 | With `--hidden` and no other filter, the listing is the whole snapshot. |
| Listing.DottedFilterListsNothing | src/main.cc:107-108 | A filter value that contains a period matches no entry. |
| Listing.SortedPermutationUnique | src/main.cc:114-117 | Two ordered arrangements of the same entries with distinct names are equal, so the sorted listing is determined. |
| Render.Decimal | src/main.cc:32 | `oss << b` for a whole number of bytes below 1024. Stated by `Render.DecimalShape`, `Render.DecimalRoundTrip` and `Render.DecimalLength`. |
| Render.DecimalShape | src/main.cc:32 | An integer is written as a non-empty string of digits, with a leading `0` only for zero and a single digit exactly below ten. |
| Render.DecimalRoundTrip | src/main.cc:32 | Reading back the digits of `n` gives `n`. |
| Render.DecimalLength | src/main.cc:32 | The numeral of `n` has at most `d` digits if and only if `n < 10^d`. |
| Render.OneDecimal | src/main.cc:28-30 | `std::fixed << std::setprecision(1)` applied to a count of tenths. Stated by `Render.OneDecimalRoundTrip`. |
| Render.OneDecimalRoundTrip | src/main.cc:28-30 | A count of tenths written with one decimal place reads back to the same count. |
| Render.Tenths | src/main.cc:28-30 | `b / unit` rounded to one decimal place, counted in tenths. Stated by `Render.TenthsNearest` and `Render.TenthsTiesToEven`. |
| Render.TenthsNearest | src/main.cc:28-30 | The printed figure is within half a tenth of `bytes / unit`. |
| Render.TenthsTiesToEven | src/main.cc:28-30 | A quotient exactly halfway between two tenths rounds to the even one; otherwise it rounds to the nearer one. |
| Render.HumanSize | src/main.cc:24-35 | `human_size`. Stated by `Render.HumanSizeReadsBack`, `Render.SizeFieldWidth` and the worked examples below. |
| Render.HumanSizeReadsBack | src/main.cc:24-35 | The size string can be read back as follows: below 1024 bytes, the exact count followed by `B`; up to 1 MiB, a one-decimal figure within a twentieth of `bytes/1024` followed by `KB`; above that, the same against `bytes/1048576` followed by `MB`. |
| Render.KilobyteFigureRange | src/main.cc:27-30 | The KB figure runs from 1.0 to 1024.0. |
| Render.ByteExamples | src/main.cc:31-32 | 0 bytes is shown as `0B` and 1023 bytes as `1023B`. |
| Render.KilobyteExample | src/main.cc:29-30 | 1024 bytes is shown as `1.0KB`. |
| Render.LargestKilobyteExample | src/main.cc:27-30 | 1048575 bytes is shown as `1024.0KB`. |
| Render.TieExample | src/main.cc:29-30 | 1280 bytes (exactly 1.25 KB) is shown as `1.2KB`. |
| Render.MegabyteExample | src/main.cc:27-28 | 1048576 bytes is shown as `1.0MB`. |
| Render.PadRight | src/main.cc:59 | `std::left << std::setw(w)` makes the string as long as the longer of the text and the width. |
| Render.PadRightShape | src/main.cc:59 | The text comes first and spaces fill the rest. |
| Render.PadLeft | src/main.cc:62 | `std::right << std::setw(w)` makes the string as long as the longer of the text and the width. |
| Render.PadLeftShape | src/main.cc:62 | The text comes last and spaces fill the front. |
| Render.Row | src/main.cc:56-63 | One table row without colour: bar, name field, bar, size field. Stated by `Render.RowLayout` and `Render.RowsAlign`. |
| Render.RowPieces | src/main.cc:56-63 | A row is the bar, the name field, the bar and the size field, at these positions. |
| Render.RowNameField | src/main.cc:57-59 | The name field holds the name, then spaces up to column 27, or to the end of a longer name. |
| Render.RowSizeField | src/main.cc:61-62 | The row ends with the size string. |
| Render.RowLayout | src/main.cc:56-63 | Where each part of a row sits. A long name or size pushes the columns right instead of being cut. |
| Render.RowsAlign | src/main.cc:56-63 | Rows whose name fits 25 columns and whose size fits 7 are 36 characters long, with the second bar at column 27. |
| Render.SizeFieldWidth | src/main.cc:54-62 | Sizes up to 1023948 bytes fit the 7-column field. From 1023949 bytes up to 1 MiB they take 8 columns (`1000.0KB` to `1024.0KB`). |
| Render.EntrySize | src/main.cc:49-53 | The size shown: zero for a directory or a failed lookup, otherwise the file's size. Stated by `Render.UnsizedRowShowsZero`. |
| Render.TableRow | src/main.cc:48-63 | The row printed for one entry, built from `Render.EntrySize`, `Render.HumanSize` and `Render.Row`. |
| Render.PrintTable | src/main.cc:38-70 | The table is the working directory, a blank line, the header, one row per item in listing order, then the footer. |
| Render.UnsizedRowShowsZero | src/main.cc:49-54 | A directory, or a file whose size cannot be read, shows `0B`. |
| Shell.Interpret | src/main.cc:123-173 | The action a whole line selects. `Shell.ProcessCommand` proves the command computes it; `Shell.BlankLineIsNoOp` and `Shell.InterpretWords` state its properties. |
| Shell.ProcessCommand | src/main.cc:123-135 | The line is tokenized, the verb is taken off the token vector, and the dispatcher runs on the rest. The command does nothing if and only if the line is blank. |
| Shell.BlankLineIsNoOp | src/main.cc:127-128 | Only an empty or all-whitespace line does nothing. |
| Shell.InterpretWords | src/main.cc:124-135 | Words typed with single spaces reach the dispatcher as verb and arguments. |
| Shell.UnknownVerbReported | src/main.cc:171-173 | `frobnicate` is reported as not recognized. |
| Shell.MissingArgumentReported | src/main.cc:140-173 | `cd` alone and `mv a` are reported as not recognized. |
| Shell.ListCommand | src/main.cc:73-119 | `fd_command` returns the listing and the lines it prints. Without sorting, the listing is the filtered snapshot in scan order. With sorting, it is the same entries in name order. Line `k + 3` is the row of listing entry `k`, so there is exactly one row per listed entry, in listing order, between the header and the footer. |
| Shell.TouchCommand | src/main.cc:152-157 | `touch a.txt` selects the creation of `a.txt`. |
| Shell.ListByExtensionCommand | src/main.cc:134-135 | `ls -ptxt` selects the listing with the argument `-ptxt`. |
| Shell.InlineFilterFlag | src/main.cc:88-91 | `-ptxt` sets the filter to `txt` and nothing else. |
| Shell.TouchThenListShowsFile | src/main.cc:101-110 | An empty `a.txt` listed with `-ptxt` is kept and shown as `0B`. |
| Shell.ExampleOrder | src/main.cc:116 | `A`, `a.txt`, `b.txt` is in byte order, with upper case first. |
| Shell.SortExample | src/main.cc:114-117 | The only sorted arrangement of `b.txt`, `A`, `a.txt` is `A`, `a.txt`, `b.txt`. |

## Left out

- The REPL loop, the prompt, reading standard input and `main` are not modelled: they are I/O.
- Effects on the real filesystem are left out: changing directory, creating, removing,
  renaming and copying, and the `Error al crear archivo` message of `touch`. The model
  stops at the `Action` a line selects, because these are operating-system calls.
- The `catch (std::exception&)` that prints `Error: ...` is not modelled. The `try` block
  wraps every verb, so any call that throws inside it ends up there. This includes the
  filesystem mutations, and also the calls behind `pwd` and the listing (see the next
  two lines).
- Shell.ListCommand: always produces a table. In the source, the listing fails if the
  working directory cannot be read or no longer exists: `fs::current_path()`,
  `fs::directory_iterator` or `entry.is_directory()` throws (`src/main.cc:101-103`,
  `src/main.cc:39`). The command then prints `Error: ...` and no table, or only part of
  one. That failure path is not modelled.
- `pwd` can fail the same way, because `fs::current_path()` may throw
  (`src/main.cc:138`). It is modelled only as the `Pwd` action.
- ANSI colour escape sequences are not modelled, including the cyan and green
  distinction between directories and files. They are styling only; the modelled rows
  are the text without them.
- `pwd` is modelled as the `Pwd` action. The quoting that `operator<<` applies when
  printing a `path` is not modelled.
- Directory iteration order and the size lookup are inputs. The snapshot and the size
  map stand for `directory_iterator` and `fs::file_size`.
- Render.Tenths: models the exact decimal rounding of `b / 2^10` and `b / 2^20`. That
  rounding is exact only while the size converts to a `double` without loss, below 2^53
  bytes. Larger sizes and any library whose printing does not round ties to even are
  not captured.
- Listing.SortByName: states only what `std::sort` promises, ordered and a permutation,
  not the particular order it leaves equal names in. Names in one directory are
  distinct, and `Listing.SortedPermutationUnique` shows this fixes the result.
- Text.IsAlpha: covers the C-locale letters `A`-`Z` and `a`-`z`. Passing `std::isalpha`
  a negative `char` (a non-ASCII byte) is undefined behaviour in the source and is not
  modelled.
- Characters stand for the bytes of a name. `std::string` comparison is by byte, and no
  encoding is modelled.
