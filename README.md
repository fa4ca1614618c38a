# get_ris_bas.py, modelled in Dafny

`TDDFT-ris/get_ris_bas.py` turns a table of per-element exponents into a
basis-set file. It does four things:

- It reads the `-p/--pfunc` flag through `str2bool`.
- It picks the output name: `ris.bas`, or `ris+p.bas` when the flag is set.
- It writes a `$DATA` header and a blank line.
- For every input line that does not start with `#`, it splits the line on
  whitespace, lower-cases the second token as the element symbol, and takes
  the last token verbatim as the exponent (theta). It then writes the symbol,
  an `S   1` entry and the theta line, `P   1` and a second theta line in
  p-function mode for every symbol but `h`, and a blank line. It ends with `$END`.

The project has two modules:

- `Text` (`text.dfy`) models the Python string primitives the script uses:
  - `Split` is `str.split()` with no argument. Its separators are exactly the
    characters `str.isspace` accepts.
  - `Lower` is `str.lower()` on ASCII letters.
  - `JoinLines` and `SplitLines` view a text as `'\n'`-separated lines, which
    is how the output is read back.
- `RisBas` (`ris_bas.dfy`) models the script.
  - `Str2Bool` and `OutputFilename` are pure functions.
  - `Parse` says what the loop makes of one line.
  - `Block` and `BlockLines` give the text written for one row.
  - `Convert` is the whole run as a value.
  - `WriteBasis` is the loop itself. It appends each `write` argument to a
    text buffer and is proved to produce exactly `Convert`.

A line with fewer than two tokens makes `parts[1]` raise `IndexError`. The
`with` block then closes the file, keeping what was already written. The
model makes this an explicit outcome, `Failed(line, partial)`. `line` is the
offending line's index. `partial` is the header plus the blocks of the lines
before it, without a trailer.

The symbol is the second column, not the first. A two-column row such as
`H  12.34` therefore gets `12.34` as both its symbol and its theta
(`TwoColumnRow`). The script expects a leading column, such as the atomic
number, before the symbol. The model follows the code.

## Model

| member | source | states |
|---|---|---|
| Text.Split | TDDFT-ris/get_ris_bas.py:33 | every token of `line.split()` is nonempty and free of whitespace |
| Text.SplitSkipsSpace | TDDFT-ris/get_ris_bas.py:33 | leading whitespace does not change the tokens |
| Text.BlankHasNoTokens | TDDFT-ris/get_ris_bas.py:33 | a line of whitespace only (such as `"\n"`) has no tokens |
| Text.SplitWord | TDDFT-ris/get_ris_bas.py:33 | a word followed by whitespace or by nothing is the first token, and the rest is split on |
| Text.SplitJoinWith | TDDFT-ris/get_ris_bas.py:33 | splitting undoes joining words with any nonempty whitespace runs between them (spaces, tabs, as in an aligned table), whatever whitespace (such as the kept `'\n'`) follows |
| Text.Lower | TDDFT-ris/get_ris_bas.py:35 | same length, each character lower-cased on its own, and no upper-case letter left |
| Text.LowerIdempotent | TDDFT-ris/get_ris_bas.py:35 | lower-casing twice is lower-casing once |
| Text.LowerOfLowercase | TDDFT-ris/get_ris_bas.py:7-9 | a text without upper-case letters is unchanged by `lower()` |
| Text.LowerKeepsWord | TDDFT-ris/get_ris_bas.py:35 | lower-casing a token gives a token |
| Text.LowerCharEqualIff | TDDFT-ris/get_ris_bas.py:7-9 | two characters lower-case to the same character exactly when they differ at most in ASCII case |
| Text.LowerEqualIff | TDDFT-ris/get_ris_bas.py:7-9 | two texts lower-case to the same text exactly when they differ only in the case of ASCII letters, both directions |
| Text.SplitJoinLines | TDDFT-ris/get_ris_bas.py:38-47 | text written as newline-free lines, each ended by `'\n'`, followed by a newline-free tail, reads back as exactly those lines and that tail |
| RisBas.Str2Bool | TDDFT-ris/get_ris_bas.py:6-12 | true exactly for a lower-cased value in yes/true/t/y/1; false exactly for one in no/false/f/n/0; otherwise the error with message `Unsupported value encountered.` |
| RisBas.SpellingsDisjoint | TDDFT-ris/get_ris_bas.py:7-10 | no spelling is both true and false, so the order of the two tests does not matter |
| RisBas.AllSpellingsLowercase | TDDFT-ris/get_ris_bas.py:7-9 | every accepted spelling is already lower-case |
| RisBas.Str2BoolSpellings | TDDFT-ris/get_ris_bas.py:6-12 | stated without `Lower`: true iff the value is a case variant of a truthy spelling, false iff of a falsy one, error iff of neither |
| RisBas.Str2BoolIgnoresCase | TDDFT-ris/get_ris_bas.py:7-9 | values differing only in ASCII case give the same result |
| RisBas.OutputFilename | TDDFT-ris/get_ris_bas.py:21 | `ris.bas` exactly when the flag is off, `ris+p.bas` exactly when it is on |
| RisBas.OutputFilenameInjective | TDDFT-ris/get_ris_bas.py:21 | only the two names occur, and different flags give different names |
| RisBas.IsComment | TDDFT-ris/get_ris_bas.py:31 | no contract: the definition of `line.startswith('#')`, a nonempty line whose first character is `#` |
| RisBas.Parse | TDDFT-ris/get_ris_bas.py:31-36 | a comment exactly when the line starts with `#`; malformed exactly when a non-comment has fewer than two tokens; otherwise a row whose symbol and theta are single tokens and whose symbol has no upper-case letter |
| RisBas.ParseRow | TDDFT-ris/get_ris_bas.py:33-36 | a non-comment line of two or more tokens, separated by any nonempty whitespace runs and with any whitespace before and after them, gives `Lower` of the second token and the last token verbatim |
| RisBas.TwoColumnRow | TDDFT-ris/get_ris_bas.py:35-36 | on a two-column row the symbol and the theta both come from the second column |
| RisBas.BlankLineMalformed | TDDFT-ris/get_ris_bas.py:33-35 | a blank or whitespace-only line is not skipped and fails on `parts[1]` |
| RisBas.OneTokenMalformed | TDDFT-ris/get_ris_bas.py:33-35 | a non-comment line of one token fails on `parts[1]` |
| RisBas.ThetaLine | TDDFT-ris/get_ris_bas.py:40 | no contract: the definition of the theta line of lines 40 and 43, `1`, nine spaces, the theta token, thirteen spaces and `1.0000000`, without its newline |
| RisBas.ThetaWrite | TDDFT-ris/get_ris_bas.py:40 | no contract: the definition of the argument of the `write` calls on lines 40 and 43, the theta line followed by `'\n'` |
| RisBas.HasP | TDDFT-ris/get_ris_bas.py:41 | no contract: the definition of the test `args.pfunc and element_symbol != 'h'` |
| RisBas.Block | TDDFT-ris/get_ris_bas.py:38-45 | no contract: the definition of one row's text, the five `write` arguments of lines 38-40 and 45, or seven with lines 42-43, concatenated in order |
| RisBas.BlockLines | TDDFT-ris/get_ris_bas.py:38-45 | no contract: the definition of one row's text read as output lines; `BlockIsLines` ties it to `Block` |
| RisBas.BlockIsLines | TDDFT-ris/get_ris_bas.py:38-45 | the `write` arguments of one row are its block's lines, each followed by a newline |
| RisBas.BlockLinesDistinct | TDDFT-ris/get_ris_bas.py:38-43 | neither the symbol line nor the theta line is empty or equal to either entry header |
| RisBas.BlockShape | TDDFT-ris/get_ris_bas.py:38-45 | a block has `P   1` exactly when the flag is on and the symbol is not `h`; it then has six lines with two identical theta lines, and otherwise four |
| RisBas.BlockSeparator | TDDFT-ris/get_ris_bas.py:38-45 | a block has exactly one `S   1` entry, exactly one `P   1` entry in p-mode for a symbol other than `h` and none otherwise, and its only empty line is its last |
| RisBas.BlockReadBack | TDDFT-ris/get_ris_bas.py:38-45 | the block's text, split at newlines, is its lines followed by the empty piece after the final newline |
| RisBas.Emit | TDDFT-ris/get_ris_bas.py:31-45 | no contract: the definition of one input line's contribution, nothing for a comment and the row's `Block` for a data line (see the `RisBas.Emit` line under "## Left out" for a malformed line) |
| RisBas.Body | TDDFT-ris/get_ris_bas.py:30-45 | no contract: the definition of the text the loop writes between header and trailer, each line's `Emit` in input order |
| RisBas.BodyLines | TDDFT-ris/get_ris_bas.py:30-45 | no contract: the definition of that text read as output lines, each data line's `BlockLines` in input order; `BodyIsLines` ties it to `Body` |
| RisBas.BodyAppend | TDDFT-ris/get_ris_bas.py:30-45 | the text written for `a + b` is that of `a` followed by that of `b` |
| RisBas.BodySnoc | TDDFT-ris/get_ris_bas.py:30-45 | one more line appends exactly that line's contribution |
| RisBas.DataLines | TDDFT-ris/get_ris_bas.py:30-32 | a line is kept exactly when it is an input line that is not a comment, no kept line is a comment, and there are no more kept lines than input lines |
| RisBas.DataLinesCount | TDDFT-ris/get_ris_bas.py:30-32 | every non-comment line is kept as many times as it occurs in the input, and every comment is dropped |
| RisBas.DataLinesAppend | TDDFT-ris/get_ris_bas.py:30-32 | the lines kept from `a + b` are those kept from `a` followed by those kept from `b`, so the input order is kept |
| RisBas.BodySkipsComments | TDDFT-ris/get_ris_bas.py:31-32 | the written text is the same with comment lines removed |
| RisBas.BodyIsLines | TDDFT-ris/get_ris_bas.py:30-45 | the body is its output lines joined by newlines, and no output line contains a newline |
| RisBas.SEntryPerDataLine | TDDFT-ris/get_ris_bas.py:30-45 | on an input without malformed lines, the output has one `S   1` entry per data line |
| RisBas.NoPEntryWithoutFlag | TDDFT-ris/get_ris_bas.py:41 | without the flag no `P   1` entry is written |
| RisBas.FirstMalformed | TDDFT-ris/get_ris_bas.py:30-35 | every line before the result is a comment or has two tokens, and the line at the result (if any) is not |
| RisBas.FirstMalformedIs | TDDFT-ris/get_ris_bas.py:30-35 | those facts determine the first failing line uniquely |
| RisBas.FirstMalformedAppend | TDDFT-ris/get_ris_bas.py:30-35 | after a well-formed prefix, the first failure is found in the rest, shifted by the prefix's length |
| RisBas.Convert | TDDFT-ris/get_ris_bas.py:28-47 | completes exactly when no line is malformed, with text starting `$DATA\n\n` and ending `$END`; otherwise fails at a malformed line with only well-formed lines before it and a partial text that starts with the header |
| RisBas.HeaderIsLines | TDDFT-ris/get_ris_bas.py:28 | the header is the line `$DATA` and an empty line |
| RisBas.EnvelopeNoNewline | TDDFT-ris/get_ris_bas.py:28-47 | header lines, body lines and the trailer contain no newline |
| RisBas.ConvertReadBack | TDDFT-ris/get_ris_bas.py:28-47 | the complete output read as lines is `$DATA`, an empty line, the blocks' lines in input order, and `$END` as the last line with nothing after it |
| RisBas.ConvertAppend | TDDFT-ris/get_ris_bas.py:28-47 | converting two well-formed inputs one after the other puts both bodies in one envelope |
| RisBas.ConvertAppendFails | TDDFT-ris/get_ris_bas.py:30-35 | a malformed line in the second part is reported at its position in the whole input, after all of the first part's blocks |
| RisBas.CommentStep | TDDFT-ris/get_ris_bas.py:31-32 | a comment line writes nothing and the loop goes on |
| RisBas.DataStep | TDDFT-ris/get_ris_bas.py:33-45 | a data line appends exactly its block and the loop goes on |
| RisBas.MalformedStep | TDDFT-ris/get_ris_bas.py:33-35 | the first non-comment line with fewer than two tokens is the first malformed line, and the run fails there with the text written so far |
| RisBas.FinishStep | TDDFT-ris/get_ris_bas.py:47 | when the loop passes the last line without a failure, the run completes with the trailer after the body |
| RisBas.WriteBlock | TDDFT-ris/get_ris_bas.py:38-45 | the five or seven `write` calls for one row append exactly that row's block |
| RisBas.WriteBasis | TDDFT-ris/get_ris_bas.py:28-47 | the loop's header, per-line writes and trailer, with its early stop, produce exactly `Convert(lines, pfunc)` |

## Left out

- Command-line parsing (lines 13-18): `ArgumentParser`, `parse_args` and the global `args` are not modelled. The flag, whose default is `False`, is a parameter. The conversion of the flag's text is `Str2Bool`. The exit with a usage message that `argparse` makes of the `ArgumentTypeError` is not modelled.
- File input (lines 20, 23-24): the input file name `radi_exponent.txt` is not modelled. The result of `readlines()` is the parameter `lines`, one string per line, each keeping its `'\n'` if it has one (the last line of a file that does not end in a newline has none).
- File output (line 27): opening the file is not modelled. Each `file.write` appends to a string buffer, and the returned `Outcome` holds the text written. The file holds exactly that text only where Python's text mode writes `'\n'` as itself (the line separator is `'\n'`) and the locale encoding maps each character to itself, as UTF-8 does for ASCII. The translation of `'\n'` to `os.linesep` and the encoding step are not modelled.
- The closing `print` (line 49) is console output and is not modelled.
- Text.Lower: only ASCII letters `A`-`Z` are lower-cased. Python's `str.lower()` also maps non-ASCII letters, and for a few of them it changes the length. So `Str2Bool`, `Parse` and the symbol are exact only for ASCII input.
- RisBas.Emit: a malformed line contributes nothing. The script raises there instead. `Convert` and `WriteBasis` stop at the first malformed line, so this value is never part of an output.
- The theta value is never parsed as a number, and neither is it in the script. It is copied as a token.
