# publish-github: release-notes extraction

The `publish-github` action publishes a GitHub release. Its notes come from
the project's `NEWS.md`. The script does five things:

- cuts the changelog at every `"\n## CHANGES WITH "`;
- takes the first line of the text before the first cut as the document header;
- keys every later piece (one release section) by the text before its first
  colon (without a colon, by the section minus its last character);
- looks up the requested version, strips that section, and puts it after an
  indented `## CHANGES WITH ` heading, under the indented header (the
  section's own later lines are not indented);
- assembles the argument vector of `gh release create`.

This project models that pipeline as pure functions over Dafny strings and
proves what each step means. The Python string and dictionary operations it
uses are modelled with their exact Python behaviour:

- `str.split` cuts at non-overlapping occurrences found from the left;
- `str.find` returns -1 when the needle is absent;
- `s[:n]` counts a negative `n` back from the end;
- `str.splitlines` uses its full set of line breaks, treats `\r\n` as one
  break, and opens no empty line after a final break;
- `str.strip` uses the `isspace` characters;
- building a `dict` from pairs lets the last insertion win.

Modules:

- `PyStr` (`pystr.dfy`): `find`, `split` with `join` and `count` as its
  partners, slicing, `splitlines` and `strip`.
- `PyDict` (`pydict.dfy`): `dict(pairs)` and what the resulting map holds.
- `Action` (`action.dfy`): the script itself. `Action.Publish` returns either
  the `Release` (the argument vector and the text fed to `gh` on standard
  input) or the `Failure` that stops the script before `gh` runs:
  - `NoHeaderLine`, the IndexError of `splitlines()[0]` on an empty preamble;
  - `UnknownVersion`, the KeyError of `notes[version]`.

  A worked example checks the whole pipeline on a two-release changelog.

Key results:

- The split of line 24 is unique. The delimiter has no border (no proper
  prefix of it is also a suffix), so any pieces that join back into the
  changelog and hold no delimiter are exactly the pieces Python returns.
- The version lookup gives the last section, in document order, that carries
  the key. It fails exactly when no section carries it.

## Model

| member | source | states |
|---|---|---|
| `PyStr.Find` | publish-github/action.py:28 | -1 exactly when the needle does not occur; otherwise an occurrence with none before it |
| `PyStr.FindFrom` | publish-github/action.py:28 | the first occurrence at or after the start index, or -1 when there is none from there on |
| `PyStr.FindChar` | publish-github/action.py:28 | for a single character, `find` is -1 exactly when the character is absent, and otherwise the index of its first occurrence |
| `PyStr.SlicePrefix` | publish-github/action.py:28 | `s[:n]` is a prefix of `s`; its length is `n` clamped to `[0, len(s)]`, and a negative `n` counts back from the end |
| `PyStr.Split` | publish-github/action.py:24 | a split always has at least one piece |
| `PyStr.SplitIsLeftmost` | publish-github/action.py:24 | the pieces join back into the text, the separator after each piece is the first one in it, and the last piece holds no separator |
| `PyStr.SplitJoin` | publish-github/action.py:24 | round trip: `sep.join(s.split(sep)) == s` |
| `PyStr.SplitPiecesFree` | publish-github/action.py:24 | no piece of a split contains the separator |
| `PyStr.LeftmostSplitUnique` | publish-github/action.py:24 | any cut at the leftmost separators is the one `split` returns |
| `PyStr.CountSkip` | publish-github/action.py:24 | `count` does not change when a prefix in which the separator does not start is dropped |
| `PyStr.SplitCount` | publish-github/action.py:24 | a split has one more piece than `s.count(sep)` |
| `PyStr.LineEnd` | publish-github/action.py:25 | the index of the first line break, or the length when there is none; nothing before it is a line break |
| `PyStr.NextLineStart` | publish-github/action.py:25 | the next line starts after the first line break and within the text; the width of `\r\n` as one unit is stated by `PyStr.SplitLinesCrLf` |
| `PyStr.SplitLines` | publish-github/action.py:25 | `splitlines` gives no lines exactly when the text is empty |
| `PyStr.SplitLinesNoBreak` | publish-github/action.py:25 | no line returned by `splitlines` holds a line break |
| `PyStr.FirstLine` | publish-github/action.py:25 | the first line is the longest prefix without a line break, followed by a break or the end of the text |
| `PyStr.SplitLinesBreak` | publish-github/action.py:25 | a break-free line followed by any single-character line break other than `\r` (`\n`, `\v`, `\f`, the separators `\x1c`-`\x1e`, `\x85`, `\u2028`, `\u2029`) is the first line, and the rest is split on its own |
| `PyStr.SplitLinesCrLf` | publish-github/action.py:25 | `\r\n` ends a line as one unit: a break-free line followed by `\r\n` is the first line, with no empty line before the rest |
| `PyStr.SplitLinesLoneCr` | publish-github/action.py:25 | a carriage return not followed by a line feed ends a line on its own |
| `PyStr.SplitLinesAt` | publish-github/action.py:25 | the `\n` case of `SplitLinesBreak`, for a text already known to be line, line feed, rest |
| `PyStr.LineEndAt` | publish-github/action.py:25 | when a break-free prefix is followed by a line break, the first line ends exactly there |
| `PyStr.SplitLinesBlankLine` | publish-github/action.py:31 | a line, `\n\n` and a rest split into that line, one empty line, and the lines of the rest |
| `PyStr.StripStart` | publish-github/action.py:29 | `lstrip` gives the suffix after the leading whitespace; it starts with no whitespace |
| `PyStr.StripEnd` | publish-github/action.py:29 | `rstrip` gives the prefix before the trailing whitespace; it ends with no whitespace |
| `PyStr.Strip` | publish-github/action.py:29 | `strip` gives a slice of the text with only whitespace around it and no whitespace at either of its ends |
| `PyStr.StripTrimmed` | publish-github/action.py:29 | a text with no whitespace at either end is left unchanged |
| `PyStr.StripIdempotent` | publish-github/action.py:29 | stripping twice gives the same as stripping once |
| `PyDict.FromPairs` | publish-github/action.py:28 | `dict(pairs)`; it has no contract of its own, and its meaning is stated by `PyDict.FromPairsLastWins` (last insertion wins), `PyDict.FromPairsSize` and `PyDict.FromPairsDistinct` |
| `PyDict.FromPairsLastWins` | publish-github/action.py:28 | `dict(pairs)` has a key exactly when some pair carries it, bound to the value of the last such pair |
| `PyDict.FromPairsSize` | publish-github/action.py:28 | the dictionary has at most one key per pair |
| `PyDict.FromPairsDistinct` | publish-github/action.py:28 | with no repeated key, the dictionary has one key per pair |
| `Action.DelimiterHasNoBorder` | publish-github/action.py:24 | no proper prefix of `"\n## CHANGES WITH "` is also a suffix of it |
| `Action.DelimiterAfterPiece` | publish-github/action.py:24 | a piece holding no delimiter first meets the delimiter where the one placed after it begins |
| `Action.ChangelogSplitUnique` | publish-github/action.py:24 | pieces that join back into the changelog and hold no delimiter are exactly the sections of line 24 |
| `Action.ChangelogSplit` | publish-github/action.py:24-26 | the changelog splits into a preamble plus one section per delimiter, joins back, and no section holds the delimiter |
| `Action.PreambleEmpty` | publish-github/action.py:24-25 | the preamble is empty exactly when the changelog is empty or starts with the delimiter |
| `Action.HeaderLine` | publish-github/action.py:25 | IndexError exactly when the preamble is empty; otherwise the header is the preamble's first line, followed by a line break or the end |
| `Action.VersionKey` | publish-github/action.py:28 | the key is a colon-free prefix of the section; with a colon it ends at the first one; without one it is the section minus its last character |
| `Action.VersionKeyBeforeColon` | publish-github/action.py:28 | the key is exactly the text before the first colon |
| `Action.EntriesLastWins` | publish-github/action.py:28 | the dictionary built from the `(key, section)` pairs holds a version exactly when some section has that key, bound to the last such section |
| `Action.NotesByVersion` | publish-github/action.py:28 | the version dictionary's keys are exactly the sections' keys, each bound to the last section with that key, and there is at most one key per section |
| `Action.SelectSection` | publish-github/action.py:28-29 | KeyError exactly when no section has the key; otherwise the last section with that key |
| `Action.NotesByVersionDistinct` | publish-github/action.py:28 | when no two sections share a key, the dictionary has exactly one key per section |
| `Action.IndentNoBreak` | publish-github/action.py:31 | indenting a break-free line adds no line break |
| `Action.Relnotes` | publish-github/action.py:31 | the f-string of line 31; it has no contract of its own, and its meaning (the line structure of the formatted notes) is stated by `Action.RelnotesLines` |
| `Action.RelnotesLines` | publish-github/action.py:31 | the formatted notes' first line is the indented header, then exactly one blank line, then the indented heading and notes |
| `Action.ReleaseArgs` | publish-github/action.py:37-46 | eleven arguments, the repo after `--repo`, the title `title-version` after `--title`, and the tag last |
| `Action.Publish` | publish-github/action.py:24-46 | IndexError exactly on an empty preamble. Otherwise KeyError exactly when no section has the version. Otherwise `ReleaseArgs` plus notes: the indented first preamble line and the stripped last matching section, under the heading |
| `Action.PublishNeedsPreamble` | publish-github/action.py:24-25 | the script stops with IndexError exactly when the changelog is empty or starts with the delimiter |
| `Action.SelectFirstOfTwo` | publish-github/action.py:28-29 | of two sections where only the first has the key, the first is selected |
| `Action.ExampleSplit` | publish-github/action.py:24 | the example changelog splits into its preamble and its two release sections |
| `Action.ExampleHeader` | publish-github/action.py:25 | the example's header line is `"MyApp NEWS"` |
| `Action.ExampleSelect` | publish-github/action.py:28-29 | in the example, version 1.2.0 selects the first release section |
| `Action.ExampleArgs` | publish-github/action.py:37-46 | the example's full argument vector, word by word |
| `Action.ExamplePublish` | publish-github/action.py:24-46 | for a two-release changelog, publishing 1.2.0 gives the expected argument vector and notes text |
| `Action.ExampleKeyWithoutColon` | publish-github/action.py:28 | `"1.3.0\n"` is keyed `"1.3.0"`, `"1.3.0"` is keyed `"1.3."`, and `""` is keyed `""` |

## Left out

- Reading `sys.argv` (lines 12-15): the title, repo, tag and version are parameters of `Action.Publish`. A missing argument (IndexError) is not modelled.
- Reading `NEWS.md` (lines 21-22): the file text is the `content` parameter. Opening it in text mode translates `\r\n` and `\r` to `\n` (universal newlines). That translation belongs to I/O and is not modelled. `content` is the text after it.
- Running `gh` (line 48): the model stops at the argument vector and the standard-input text. A failing `gh` (`check=True`) is not modelled.
- `PyStr.Split`: the ValueError Python raises for an empty separator is excluded by `requires sep != []`. The script only splits on its constant, non-empty delimiter.
- `PyStr.Count`: modelled only as the partner of `Split` (`SplitCount`). It stands for Python's `str.count`, which the script does not call.
- `PyStr.IsLineBreak` and `PyStr.IsSpace`: the line-break set of `str.splitlines` and the whitespace set of `str.isspace` are written out as Python documents them. They are not derived from a particular Unicode database version.
- `Action.ReleaseArgs`: the contract states the length, the three positions that depend on the inputs and the `--repo` and `--title` flags before them. The other six constant words are given only by the function body and by `Action.ExampleArgs`.
- Strings are sequences of Unicode scalar values. Python `str` code points that are lone surrogates cannot appear.
