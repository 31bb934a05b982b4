# PowerTOP report decoder

A model of the decoder in `powertop/__init__.py` of python-powertop. The decoder
takes the lines of a PowerTOP CSV report and turns them into a dictionary from
section name to `Section`, in four steps:

- **Characteristic detection** (`Powertop.DetectCharacteristics`) finds the first
  line that starts with `PowerTOP Version`. The character right after that prefix
  is the field delimiter. The token up to the next space is the version, and it
  must start with `v`.
- **Section splitting** (`Powertop.SplitSections`) strips each line. A line made
  only of underscores closes the current section, but only if that section has
  lines. Blank lines are skipped. Every other line joins the current section.
- **Section parsing** (`Powertop.ParseSection`) reads a section's first line as its
  name, stripped of spaces and asterisks. The remaining lines go through the CSV
  reader: the first record is the header and the rest are rows. A section with only
  a name line gives the header-less entry (the `None` key).
- **Assembly** (`Powertop.ParseOutput`) builds the dictionary in section order, so
  a later section with the same name replaces an earlier one. The header-less
  entry is not kept.

`Section.rows()` (`Sections.RowMaps`) turns each row into a dictionary by pairing
header labels with cells. It stops at the shorter of the two, and for a repeated
label the later cell wins.

The exceptions of the Python code become values of `Powertop.DecodeError`:

| error | Python exception |
|---|---|
| `BannerNotFound` | `ValueError` at line 59 |
| `BannerTruncated` | `IndexError` at line 54, when the banner line ends right after the prefix |
| `BadVersion` | `AssertionError` at line 57 |
| `EmptySection` | `IndexError` at line 77, when an empty section reaches the parser |

Every operation is stated as a specification function and proved about:

- `Powertop.Detected` for detection;
- `Powertop.SectionsOf` for splitting;
- `Powertop.ParseSections` and `Powertop.Assemble` for parsing and assembly;
- `Powertop.Decode` for the whole pipeline.

The three methods with loops (`Powertop.DetectCharacteristics`, `Powertop.SplitSections`
and `Powertop.ParseOutput`) are each proved to compute their function. The Python
string operations the decoder uses (`str.strip`, `str.startswith`, `str.split`)
are modelled in `strings.dfy`, with Python's `str.isspace` character set.

Files:

- `wrappers.dfy`: Option and Result.
- `strings.dfy`: the string operations.
- `sections.dfy`: the `Section` record and `rows()`.
- `powertop.dfy`: the decoder.

## Model

| member | source | states |
|---|---|---|
| Strings.WhitespaceChars | powertop/__init__.py:65 | The character ranges of `Strings.IsSpace`, the whitespace `str.strip()` removes, hold for exactly the 29 characters of Python's `str.isspace`, which are listed one by one in `Strings.Whitespace`. |
| Strings.StartsWith | powertop/__init__.py:53 | `str.startswith`: it holds exactly when the prefix is no longer than the string and each prefix character equals the string's character at the same position. |
| Strings.Strip | powertop/__init__.py:65 | `str.strip`: the result is the slice of the input that starts right after its leading run of strippable characters and is followed only by strippable characters. It has no strippable character at either end, so both removed runs are the longest ones. It is empty exactly when every character is strippable. A string already stripped is returned unchanged. |
| Strings.StripExample | powertop/__init__.py:65 | Stripping whitespace from `" ab "` gives `"ab"`. |
| Strings.Split | powertop/__init__.py:56 | `str.split(sep)`: there is at least one piece and no piece contains the separator. |
| Strings.JoinSplit | powertop/__init__.py:56 | Joining the pieces of a split with the separator gives back the original string. |
| Strings.SplitJoin | powertop/__init__.py:79 | Splitting the join of separator-free pieces gives back exactly those pieces. |
| Strings.SplitHead | powertop/__init__.py:56 | `split(' ', 1)[0]` is a prefix of the string. It ends at the end of the string or at the first space. |
| Sections.ZipDict | powertop/__init__.py:13 | `dict(zip(header, row))`: the keys are exactly the labels at positions below the shorter length. Each key holds the cell under its last such occurrence. |
| Sections.RowMaps | powertop/__init__.py:12-13 | `Section.rows()` gives one dictionary per stored row, in order. Each dictionary is that row's truncating zip with the header. |
| Powertop.IsBanner | powertop/__init__.py:51-53 | `line.startswith('PowerTOP Version')`: the line is at least sixteen characters long and begins with those sixteen characters. |
| Powertop.ReadBanner | powertop/__init__.py:53-58 | A banner line that is exactly the prefix fails with `BannerTruncated`, and only such a line does. Otherwise the delimiter is the character after the prefix and the version is the first space-free token after it. The line is accepted exactly when that token starts with `v`; if it does not, `BadVersion` carries the token. |
| Powertop.ReadBannerExample | powertop/__init__.py:54-56 | On the banner `PowerTOP Version,v2.8 report` the delimiter is `,` and the version is `v2.8`. |
| Powertop.FirstBanner | powertop/__init__.py:52-53 | The index found is a banner line with no banner before it. None means no line is a banner. |
| Powertop.Detected | powertop/__init__.py:50-59 | What detection yields: the reading of the first banner line, or `BannerNotFound`. It fails with `BannerNotFound` exactly when no line is a banner. |
| Powertop.DetectCharacteristics | powertop/__init__.py:50-59 | The scan returns what the first banner line reads as. It fails with `BannerNotFound` exactly when no line starts with the prefix. |
| Powertop.FirstBannerDecides | powertop/__init__.py:52-58 | Only the first banner line is read. Lines after it, banners included, change nothing. |
| Powertop.StripSpace | powertop/__init__.py:65 | `line.strip()`: no whitespace at either end, and empty exactly when every character is whitespace. |
| Powertop.IsSeparator | powertop/__init__.py:66 | `set(line) == {'_'}`: the line is a separator exactly when its set of characters is `{'_'}`. |
| Powertop.SplitStep | powertop/__init__.py:65-73 | One turn of the loop on a stripped line. A separator appends an empty section only when the last section has lines. A blank line changes nothing. Any other line is appended to the last section. There is always at least one section. |
| Powertop.FlattenSplitStep | powertop/__init__.py:65-73 | One turn adds to the concatenated sections exactly the line it keeps, and nothing for a blank or separator line. |
| Powertop.SplitStepKeepsNonEmpty | powertop/__init__.py:66-69 | One turn keeps every section but the last non-empty. |
| Powertop.SectionsOf | powertop/__init__.py:61-74 | The sections `_split_sections` returns: the turns of the loop applied to the lines in order, starting from one empty section. There is always at least one section. |
| Powertop.SplitSections | powertop/__init__.py:61-74 | The loop builds exactly `SectionsOf(lines)`. Read back in order, the sections hold exactly the stripped lines that are neither blank nor separators. Every section except the last is non-empty. |
| Powertop.SectionsCoverKeptLines | powertop/__init__.py:64-73 | The sections, concatenated, are the kept lines in their original order: none is lost, duplicated or reordered. |
| Powertop.OnlyLastSectionMayBeEmpty | powertop/__init__.py:66-69 | A separator opens a new section only when the current one has lines, so only the last section can be empty. |
| Powertop.SectionLinesAreContent | powertop/__init__.py:65-73 | Every line stored in a section is stripped, not blank and not a separator. |
| Powertop.BlankLineIgnored | powertop/__init__.py:70-71 | An appended line that strips to nothing leaves the sections unchanged. |
| Powertop.BlankLineIgnoredAnywhere | powertop/__init__.py:70-71 | A line that strips to nothing, anywhere in the report, leaves the sections unchanged: removing it gives the same sections. |
| Powertop.SectionsOfAppend | powertop/__init__.py:64-73 | The sections of a report are those of its first part, continued through its remaining lines. |
| Powertop.NoSeparatorOneSection | powertop/__init__.py:64-73 | A report with no separator line gives exactly one section, holding all of its kept lines in order. |
| Powertop.SeparatorStartsSection | powertop/__init__.py:66-69 | A separator after a non-empty section closes it. The sections of the whole report are those before the separator followed by those of the lines after it, split on their own. |
| Powertop.SeparatorRunCollapses | powertop/__init__.py:66-69 | A second separator in a row changes nothing. |
| Powertop.TrailingSeparatorLeavesEmptySection | powertop/__init__.py:66-69 | After some content, a trailing separator leaves an empty last section behind at least one other section. |
| Powertop.CsvRecord | powertop/__init__.py:79-84 | A CSV record without quoting: an empty line has no cell. Any other line gives at least one cell, none holds the delimiter, and joining the cells gives back the line. |
| Powertop.SectionName | powertop/__init__.py:77 | `strip(' *')`: no space or `*` at either end, and empty exactly when the line holds only spaces and `*`. |
| Powertop.ParseSection | powertop/__init__.py:76-85 | An empty section fails with `EmptySection`, and only an empty one does. A name line alone gives the header-less entry. Otherwise the name is the first line stripped of spaces and asterisks, the header is the second line's record, and there is one row per further line, each that line's record. |
| Powertop.ParseSectionLines | powertop/__init__.py:76-85 | Round trip: writing a stripped name, a header and rows as section lines, then parsing them, gives back the same name and `Section`. This holds when no cell holds the delimiter and no record is a lone empty cell. |
| Powertop.ParseSections | powertop/__init__.py:44-45 | Parsing all sections succeeds exactly when none is empty, and the only failure is `EmptySection`. On success there is one entry per section, each that section's parse. |
| Powertop.Assemble | powertop/__init__.py:44-48 | The keys are exactly the names of the named entries, and each name holds the `Section` of its last entry. Header-less entries add no key. |
| Powertop.DecodeSplit | powertop/__init__.py:42-48 | Decoding after detection and splitting. A failed detection is returned unchanged. Once detection has succeeded, the only failure is `EmptySection`. |
| Powertop.Decode | powertop/__init__.py:41-48 | The whole decoding as a function of the lines. It fails with `BannerNotFound` exactly when no line is a banner. A failed detection (`BannerTruncated`, `BadVersion`) is returned unchanged. Once detection succeeds, the only failure is `EmptySection`. |
| Powertop.ParseOutput | powertop/__init__.py:41-48 | The method computes `Decode(lines)`: detection first, then splitting, parsing and assembly. |
| Powertop.DecodeWithoutBanner | powertop/__init__.py:52-59 | A report with no banner line fails with `BannerNotFound`, whatever else it holds. |
| Powertop.DecodeFailsIffLastSectionEmpty | powertop/__init__.py:44-45 | Once the banner is read, decoding fails exactly when the last section is empty, and then with `EmptySection`. |
| Powertop.DecodeFailsAfterTrailingSeparator | powertop/__init__.py:66-77 | A recognised report whose last line is a separator always fails with `EmptySection`. |
| Powertop.DecodedNames | powertop/__init__.py:44-48 | A name is a key of the decoded dictionary exactly when some section has at least two lines and that name as its stripped first line. |
| Powertop.DecodeLastWriteWins | powertop/__init__.py:44-48 | A name holds the section read from the last section carrying that name. Its header is that section's second-line record and its rows are the records of the lines after it. |
| Powertop.DecodeIgnoresBlankLine | powertop/__init__.py:70-71 | Appending a blank line to a report changes neither the outcome nor the dictionary. |

## Left out

- `Powertop.__init__`, `get_measures` and `_run` are left out. As written, `_run` returns the lines of a fixed file `powertop2.csv` in the working directory (line 31). The temporary-file and `subprocess.check_call` code after that return (lines 32-39) never runs. So the `time` and `iterations` arguments, `self.command` and `self.env` have no effect. That is file I/O, so the model starts from the list of lines `_run` returns.
- `Section.__repr__` is left out: it only formats text for display.
- `powertop/__main__.py` and `setup.py` are not part of this model. They are the command-line entry point and the packaging.
- Powertop.CsvRecord: models `csv.reader` as a plain split on the delimiter. Any field beginning with the quote character `"` is read differently by Python's reader, which removes the quotes and keeps delimiters inside them: `"ab",c` reads as `['ab', 'c']`, where the model gives `['"ab"', 'c']`. Doubled quotes inside a quoted field are not modelled either. The default reader has no escape character, so there is no escaping to model.
- Powertop.ReadBanner: `BadVersion` stands for Python's `assert`. Under `python -O` that assert is removed and any version token is accepted; the model keeps the check.
- Powertop.ParseOutput: the header-less entry is never inserted, whereas the Python code inserts it under the key `None` and then deletes that key. The resulting dictionary is the same.
- Powertop.SplitSections: Python keeps the current section as one list object that is also the last element of `sections`, and appending to it shows in both. The model writes the updated section back as the last element of the sequence (loop invariant `Last(sections) == current`). Aliasing itself is not modelled.
- Powertop.ParseOutput: the result is a `map`, which has no order. The Python dict keeps its keys in insertion order: a name stays where it first appeared and takes the value of its last section. That order shows when the dict is iterated or printed. The model does not record it.
- Sections.RowMaps: each row is a `map`, which has no order. Python's dict from `zip` lists each label at the position where it first occurs in the header. That order is not recorded, but it can be recovered from `header`.
- `powertop/__init__.py` does not implement:
  - blank-line table splitting;
  - a key:value reader for the system information section;
  - CPU/core/package topology reconstruction;
  - dropping the decorative section titled with the letter-spaced `P o w e r T O P`;
  - dropping sections with an empty name.

  The model follows the code:
  - the letter-spaced `P o w e r T O P` section is not singled out. It is handled by the same rules as any other section. When it holds only its title line, it gives the header-less entry and so no key. Only with a second line would it become a key.
  - An empty-string name is kept.
  - A report that ends with a separator fails with `EmptySection` (`Powertop.DecodeFailsAfterTrailingSeparator`) instead of being decoded.
