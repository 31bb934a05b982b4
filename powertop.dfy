/**
 * The decoder of a PowerTOP CSV report: it finds the version banner (and
 * with it the field delimiter), cuts the report into sections at lines of
 * underscores, and reads each section as a name, a header record and data
 * rows, collected into a map from section name to Section.
 */
module Powertop {
  import opened Wrappers
  import opened Strings
  import opened Sections

  const BannerPrefix: string := "PowerTOP Version"

  /** The delimiter and the version token read from the banner line. */
  datatype Characteristics = Characteristics(delimiter: char, version: string)

  datatype DecodeError =
    | BannerNotFound              // no line starts with the banner prefix
    | BannerTruncated             // the banner line ends right after the prefix
    | BadVersion(version: string) // the version token does not start with 'v'
    | EmptySection                // a section without any line reaches the parser

  /** A parsed section: named with its Section, or without a header (the None entry). */
  datatype ParsedSection = Unnamed | Named(name: string, section: Section)

  function Last<T>(s: seq<T>): T
    requires |s| > 0
  {
    s[|s| - 1]
  }

  lemma InitAndLast<T>(s: seq<T>)
    requires |s| > 0
    ensures s == s[..|s| - 1] + [Last(s)]
  {
  }

  // ---------------------------------------------------------------------
  // Characteristic detection
  // ---------------------------------------------------------------------

  /** line.startswith('PowerTOP Version'): the line begins with the sixteen prefix characters. */
  predicate IsBanner(line: string)
    ensures IsBanner(line) <==>
              |BannerPrefix| <= |line| && forall i :: 0 <= i < |BannerPrefix| ==> line[i] == BannerPrefix[i]
  {
    StartsWith(line, BannerPrefix)
  }

  /** `token` is what comes before the first space of `s` (all of `s` if it has none). */
  predicate IsFirstToken(token: string, s: string) {
    StartsWith(s, token) && ' ' !in token && (|token| == |s| || s[|token|] == ' ')
  }

  /**
   * Reads a banner line: the character right after the prefix is the
   * delimiter, and the token up to the next space is the version, which
   * must start with 'v'. A line that stops at the prefix has no delimiter.
   */
  function ReadBanner(line: string): (r: Result<Characteristics, DecodeError>)
    requires IsBanner(line)
    ensures |line| == |BannerPrefix| <==> r == Err(BannerTruncated)
    ensures r.Ok? ==>
              r.value.delimiter == line[|BannerPrefix|]
              && IsFirstToken(r.value.version, line[|BannerPrefix| + 1..])
              && StartsWith(r.value.version, "v")
    ensures r.Err? && |line| > |BannerPrefix| ==>
              r.error.BadVersion?
              && IsFirstToken(r.error.version, line[|BannerPrefix| + 1..])
              && !StartsWith(r.error.version, "v")
  {
    if |line| == |BannerPrefix| then Err(BannerTruncated)
    else
      var delimiter := line[|BannerPrefix|];
      var remainder := line[|BannerPrefix| + 1..];
      var version := Split(remainder, ' ')[0];
      SplitHead(remainder, ' ');
      if StartsWith(version, "v") then Ok(Characteristics(delimiter, version))
      else Err(BadVersion(version))
  }

  /** A typical banner: a comma after the prefix, then the version and more text. */
  lemma ReadBannerExample()
    ensures ReadBanner("PowerTOP Version,v2.8 report") == Ok(Characteristics(',', "v2.8"))
  {
    var line := "PowerTOP Version,v2.8 report";
    assert line[..|BannerPrefix|] == BannerPrefix;
    var r := ReadBanner(line);
    var rest := line[|BannerPrefix| + 1..];
    assert rest == "v2.8 report";
    assert IsFirstToken("v2.8", rest);
  }

  /** The index of the first banner line, if there is one. */
  function FirstBanner(lines: seq<string>): (r: Option<nat>)
    ensures r.Some? ==>
              r.value < |lines| && IsBanner(lines[r.value])
              && forall j :: 0 <= j < r.value ==> !IsBanner(lines[j])
    ensures r.None? ==> forall j :: 0 <= j < |lines| ==> !IsBanner(lines[j])
  {
    if lines == [] then None
    else if IsBanner(lines[0]) then Some(0)
    else match FirstBanner(lines[1..])
      case None => None
      case Some(i) => Some(i + 1)
  }

  /** A banner line with none before it is the first banner. */
  lemma {:induction false} FirstBannerAt(lines: seq<string>, i: nat)
    requires i < |lines| && IsBanner(lines[i])
    requires forall j :: 0 <= j < i ==> !IsBanner(lines[j])
    ensures FirstBanner(lines) == Some(i)
    decreases i
  {
    if i > 0 {
      assert !IsBanner(lines[0]);
      var rest := lines[1..];
      assert forall j :: 0 <= j < i - 1 ==> rest[j] == lines[j + 1];
      FirstBannerAt(rest, i - 1);
    }
  }

  /** What detection yields: the first banner line decides, later ones are never read. */
  function Detected(lines: seq<string>): (r: Result<Characteristics, DecodeError>)
    ensures r == Err(BannerNotFound) <==> forall j :: 0 <= j < |lines| ==> !IsBanner(lines[j])
  {
    match FirstBanner(lines)
    case None => Err(BannerNotFound)
    case Some(i) => ReadBanner(lines[i])
  }

  /** Scans the raw lines for the first banner and reads it. */
  method DetectCharacteristics(lines: seq<string>) returns (r: Result<Characteristics, DecodeError>)
    ensures r == Detected(lines)
    ensures r == Err(BannerNotFound) <==> forall j :: 0 <= j < |lines| ==> !IsBanner(lines[j])
  {
    for i := 0 to |lines|
      invariant forall j :: 0 <= j < i ==> !IsBanner(lines[j])
    {
      if IsBanner(lines[i]) {
        FirstBannerAt(lines, i);
        return ReadBanner(lines[i]);
      }
    }
    return Err(BannerNotFound);
  }

  /** Banner lines after the first one change nothing. */
  lemma FirstBannerDecides(before: seq<string>, banner: string, after: seq<string>)
    requires forall j :: 0 <= j < |before| ==> !IsBanner(before[j])
    requires IsBanner(banner)
    ensures Detected(before + [banner] + after) == ReadBanner(banner)
  {
    var lines := before + [banner] + after;
    assert lines[|before|] == banner;
    assert forall j :: 0 <= j < |before| ==> lines[j] == before[j];
    FirstBannerAt(lines, |before|);
  }

  // ---------------------------------------------------------------------
  // Section splitting
  // ---------------------------------------------------------------------

  /** A non-empty line made only of underscores: its set of characters is exactly {'_'}. */
  predicate IsSeparator(line: string)
    ensures IsSeparator(line) <==> (set k | 0 <= k < |line| :: line[k]) == {'_'}
  {
    SeparatorChars(line);
    line != [] && forall k :: 0 <= k < |line| ==> line[k] == '_'
  }

  lemma SeparatorChars(line: string)
    ensures (line != [] && forall k :: 0 <= k < |line| ==> line[k] == '_')
            <==> (set k | 0 <= k < |line| :: line[k]) == {'_'}
  {
    var chars := set k | 0 <= k < |line| :: line[k];
    if line != [] && forall k :: 0 <= k < |line| ==> line[k] == '_' {
      assert line[0] in chars;
    }
    if chars == {'_'} {
      assert '_' in chars;
      forall k | 0 <= k < |line|
        ensures line[k] == '_'
      {
        assert line[k] in chars;
      }
    }
  }

  /** str.strip(): no whitespace at either end, and empty exactly for a blank line. */
  function StripSpace(line: string): (r: string)
    ensures IsStripped(r, IsSpace)
    ensures r == "" <==> forall k :: 0 <= k < |line| ==> IsSpace(line[k])
  {
    Strip(line, IsSpace)
  }

  /** A stripped line the splitter keeps: not blank and not a separator. */
  predicate IsContent(line: string) {
    line != "" && !IsSeparator(line)
  }

  /**
   * One turn of the splitting loop on a stripped line. The last element of
   * `sections` is the section being filled. A separator opens a new section
   * only when the current one has lines; a blank line is skipped; any other
   * line is appended to the current section.
   */
  function SplitStep(sections: seq<seq<string>>, line: string): (r: seq<seq<string>>)
    requires |sections| >= 1
    ensures |r| >= 1
  {
    if IsSeparator(line) then
      if Last(sections) != [] then sections + [[]] else sections
    else if line == "" then sections
    else sections[..|sections| - 1] + [Last(sections) + [line]]
  }

  /** The sections the splitting loop has built after reading `lines`. */
  function SectionsOf(lines: seq<string>): (r: seq<seq<string>>)
    ensures |r| >= 1
  {
    if lines == [] then [[]]
    else SplitStep(SectionsOf(lines[..|lines| - 1]), StripSpace(lines[|lines| - 1]))
  }

  /** The stripped lines that are neither blank nor separators, in order. */
  function Kept(lines: seq<string>): seq<string> {
    if lines == [] then []
    else
      var line := StripSpace(lines[|lines| - 1]);
      Kept(lines[..|lines| - 1]) + (if IsContent(line) then [line] else [])
  }

  /** All sections one after the other. */
  function Flatten<T>(sections: seq<seq<T>>): seq<T> {
    if sections == [] then [] else Flatten(sections[..|sections| - 1]) + Last(sections)
  }

  lemma FlattenAppendSection<T>(sections: seq<seq<T>>, section: seq<T>)
    ensures Flatten(sections + [section]) == Flatten(sections) + section
  {
    assert (sections + [section])[..|sections|] == sections;
  }

  lemma FlattenAppendLine<T>(init: seq<seq<T>>, current: seq<T>, line: T)
    ensures Flatten(init + [current + [line]]) == Flatten(init + [current]) + [line]
  {
    FlattenAppendSection(init, current + [line]);
    FlattenAppendSection(init, current);
    assert Flatten(init) + (current + [line]) == (Flatten(init) + current) + [line];
  }

  /** One step of the splitter adds to the flattened sections exactly the line it keeps. */
  lemma FlattenSplitStep(sections: seq<seq<string>>, line: string)
    requires |sections| >= 1
    ensures Flatten(SplitStep(sections, line)) == Flatten(sections) + (if IsContent(line) then [line] else [])
  {
    if IsSeparator(line) {
      FlattenAppendSection(sections, []);
    } else if line != "" {
      InitAndLast(sections);
      FlattenAppendLine(sections[..|sections| - 1], Last(sections), line);
    }
  }

  /** Putting the sections back together gives exactly the kept lines, in order. */
  lemma {:induction false} SectionsCoverKeptLines(lines: seq<string>)
    ensures Flatten(SectionsOf(lines)) == Kept(lines)
    decreases |lines|
  {
    if lines != [] {
      var init := lines[..|lines| - 1];
      SectionsCoverKeptLines(init);
      FlattenSplitStep(SectionsOf(init), StripSpace(lines[|lines| - 1]));
    }
  }

  /** Every section except the last has at least one line. */
  ghost predicate OnlyLastMayBeEmpty(sections: seq<seq<string>>) {
    forall i :: 0 <= i < |sections| - 1 ==> sections[i] != []
  }

  lemma SplitStepKeepsNonEmpty(sections: seq<seq<string>>, line: string)
    requires |sections| >= 1 && OnlyLastMayBeEmpty(sections)
    ensures OnlyLastMayBeEmpty(SplitStep(sections, line))
  {
    var r := SplitStep(sections, line);
    if IsSeparator(line) {
      if Last(sections) != [] {
        assert r == sections + [[]];
        assert forall i :: 0 <= i < |sections| ==> r[i] == sections[i];
      }
    } else if line != "" {
      assert r == sections[..|sections| - 1] + [Last(sections) + [line]];
      assert forall i :: 0 <= i < |sections| - 1 ==> r[i] == sections[i];
    }
  }

  lemma {:induction false} OnlyLastSectionMayBeEmpty(lines: seq<string>)
    ensures OnlyLastMayBeEmpty(SectionsOf(lines))
    decreases |lines|
  {
    if lines != [] {
      var init := lines[..|lines| - 1];
      OnlyLastSectionMayBeEmpty(init);
      SplitStepKeepsNonEmpty(SectionsOf(init), StripSpace(lines[|lines| - 1]));
    }
  }

  /** Every line of every section is stripped, not blank and not a separator. */
  ghost predicate AllContent(sections: seq<seq<string>>) {
    forall i, j :: 0 <= i < |sections| && 0 <= j < |sections[i]| ==>
      IsContent(sections[i][j]) && IsStripped(sections[i][j], IsSpace)
  }

  lemma SplitStepKeepsContent(sections: seq<seq<string>>, line: string)
    requires |sections| >= 1 && AllContent(sections)
    requires IsStripped(line, IsSpace)
    ensures AllContent(SplitStep(sections, line))
  {
    if !IsSeparator(line) && line != "" {
      var r := SplitStep(sections, line);
      assert r == sections[..|sections| - 1] + [Last(sections) + [line]];
      forall i, j | 0 <= i < |r| && 0 <= j < |r[i]|
        ensures IsContent(r[i][j]) && IsStripped(r[i][j], IsSpace)
      {
        if i < |sections| - 1 {
          assert r[i] == sections[i];
        } else if j < |Last(sections)| {
          assert r[i][j] == sections[|sections| - 1][j];
        } else {
          assert r[i][j] == line;
        }
      }
    }
  }

  lemma {:induction false} SectionLinesAreContent(lines: seq<string>)
    ensures AllContent(SectionsOf(lines))
    decreases |lines|
  {
    if lines != [] {
      var init := lines[..|lines| - 1];
      SectionLinesAreContent(init);
      SplitStepKeepsContent(SectionsOf(init), StripSpace(lines[|lines| - 1]));
    }
  }

  /** A blank line leaves the sections as they were. */
  lemma BlankLineIgnored(lines: seq<string>, blank: string)
    requires StripSpace(blank) == ""
    ensures SectionsOf(lines + [blank]) == SectionsOf(lines)
  {
    assert (lines + [blank])[..|lines|] == lines;
  }

  /** The sections the splitting loop builds from `sections` on, reading `lines`. */
  function SplitFrom(sections: seq<seq<string>>, lines: seq<string>): (r: seq<seq<string>>)
    requires |sections| >= 1
    ensures |r| >= 1
  {
    if lines == [] then sections
    else SplitStep(SplitFrom(sections, lines[..|lines| - 1]), StripSpace(lines[|lines| - 1]))
  }

  /** Reading more lines continues from the sections built so far. */
  lemma {:induction false} SectionsOfAppend(before: seq<string>, after: seq<string>)
    ensures SectionsOf(before + after) == SplitFrom(SectionsOf(before), after)
    decreases |after|
  {
    if after == [] {
      assert before + after == before;
    } else {
      var all := before + after;
      var init := after[..|after| - 1];
      var line := StripSpace(after[|after| - 1]);
      assert all[..|all| - 1] == before + init;
      assert all[|all| - 1] == after[|after| - 1];
      assert SectionsOf(all) == SplitStep(SectionsOf(before + init), line);
      SectionsOfAppend(before, init);
      assert SplitFrom(SectionsOf(before), after) == SplitStep(SplitFrom(SectionsOf(before), init), line);
    }
  }

  /** Starting from one empty section is what the splitter does. */
  lemma {:induction false} SplitFromStart(lines: seq<string>)
    ensures SplitFrom([[]], lines) == SectionsOf(lines)
    decreases |lines|
  {
    if lines != [] {
      SplitFromStart(lines[..|lines| - 1]);
    }
  }

  /** Finished sections in front are never touched by one turn. */
  lemma SplitStepPrefix(done: seq<seq<string>>, open: seq<seq<string>>, line: string)
    requires |open| >= 1
    ensures SplitStep(done + open, line) == done + SplitStep(open, line)
  {
    var all := done + open;
    assert Last(all) == Last(open);
    assert all[..|all| - 1] == done + open[..|open| - 1];
  }

  /** Finished sections in front are never touched by later lines. */
  lemma {:induction false} SplitFromPrefix(done: seq<seq<string>>, open: seq<seq<string>>, lines: seq<string>)
    requires |open| >= 1
    ensures SplitFrom(done + open, lines) == done + SplitFrom(open, lines)
    decreases |lines|
  {
    if lines != [] {
      var init := lines[..|lines| - 1];
      SplitFromPrefix(done, open, init);
      SplitStepPrefix(done, SplitFrom(open, init), StripSpace(lines[|lines| - 1]));
    }
  }

  /** Without separator lines, all kept lines form one section. */
  lemma {:induction false} NoSeparatorOneSection(lines: seq<string>)
    requires forall i :: 0 <= i < |lines| ==> !IsSeparator(StripSpace(lines[i]))
    ensures SectionsOf(lines) == [Kept(lines)]
    decreases |lines|
  {
    if lines != [] {
      var init := lines[..|lines| - 1];
      var line := StripSpace(lines[|lines| - 1]);
      assert forall i :: 0 <= i < |init| ==> init[i] == lines[i];
      NoSeparatorOneSection(init);
      var sections: seq<seq<string>> := [Kept(init)];
      assert !IsSeparator(line);
      assert SectionsOf(lines) == SplitStep(sections, line);
      if line == "" {
        assert Kept(lines) == Kept(init);
      } else {
        assert Kept(lines) == Kept(init) + [line];
        assert SplitStep(sections, line) == [Kept(init) + [line]];
      }
    }
  }

  /**
   * A separator after a non-empty section closes it: the lines after the
   * separator are split on their own, behind the sections before it.
   */
  lemma SeparatorStartsSection(before: seq<string>, separator: string, after: seq<string>)
    requires IsSeparator(StripSpace(separator)) && Last(SectionsOf(before)) != []
    ensures SectionsOf(before + [separator] + after) == SectionsOf(before) + SectionsOf(after)
  {
    var head := before + [separator];
    assert head[..|before|] == before;
    assert SectionsOf(head) == SectionsOf(before) + [[]];
    SectionsOfAppend(head, after);
    SplitFromPrefix(SectionsOf(before), [[]], after);
    SplitFromStart(after);
  }

  /** A blank line anywhere in the report leaves the sections as they were. */
  lemma BlankLineIgnoredAnywhere(before: seq<string>, blank: string, after: seq<string>)
    requires StripSpace(blank) == ""
    ensures SectionsOf(before + [blank] + after) == SectionsOf(before + after)
  {
    BlankLineIgnored(before, blank);
    SectionsOfAppend(before + [blank], after);
    SectionsOfAppend(before, after);
  }

  /** After a separator the current section is empty, so a second separator changes nothing. */
  lemma SplitStepSeparatorTwice(sections: seq<seq<string>>, first: string, second: string)
    requires |sections| >= 1
    requires IsSeparator(first) && IsSeparator(second)
    ensures SplitStep(SplitStep(sections, first), second) == SplitStep(sections, first)
  {
    var once := SplitStep(sections, first);
    if Last(sections) != [] {
      assert once == sections + [[]];
    }
    assert Last(once) == [];
  }

  lemma SeparatorRunCollapses(lines: seq<string>, first: string, second: string)
    requires IsSeparator(StripSpace(first)) && IsSeparator(StripSpace(second))
    ensures SectionsOf(lines + [first, second]) == SectionsOf(lines + [first])
  {
    var once := lines + [first];
    assert once[..|lines|] == lines;
    assert (once + [second])[..|once|] == once;
    assert lines + [first, second] == once + [second];
    SplitStepSeparatorTwice(SectionsOf(lines), StripSpace(first), StripSpace(second));
  }

  /**
   * Once some content has been read, a trailing separator leaves an empty
   * last section behind the non-empty ones.
   */
  lemma TrailingSeparatorLeavesEmptySection(lines: seq<string>, separator: string)
    requires Kept(lines) != []
    requires IsSeparator(StripSpace(separator))
    ensures |SectionsOf(lines + [separator])| >= 2
    ensures Last(SectionsOf(lines + [separator])) == []
  {
    assert (lines + [separator])[..|lines|] == lines;
    var s := SectionsOf(lines);
    assert SectionsOf(lines + [separator]) == SplitStep(s, StripSpace(separator));
    SectionsCoverKeptLines(lines);
    if |s| == 1 {
      FlattenAppendSection([], s[0]);
      assert [] + [s[0]] == s;
    }
  }

  /** Splits the raw lines into sections at separator lines. */
  method SplitSections(lines: seq<string>) returns (sections: seq<seq<string>>)
    ensures sections == SectionsOf(lines)
    ensures Flatten(sections) == Kept(lines)
    ensures forall i :: 0 <= i < |sections| - 1 ==> sections[i] != []
  {
    var current: seq<string> := [];
    sections := [current];
    for i := 0 to |lines|
      invariant |sections| >= 1 && Last(sections) == current
      invariant sections == SectionsOf(lines[..i])
    {
      assert lines[..i + 1][..i] == lines[..i];
      var line := StripSpace(lines[i]);
      if IsSeparator(line) {
        if current != [] {
          current := [];
          sections := sections + [current];
        }
      } else if line != "" {
        current := current + [line];
        // `current` is the list held last in `sections`: the append shows there too
        sections := sections[..|sections| - 1] + [current];
      }
    }
    assert lines[..|lines|] == lines;
    SectionsCoverKeptLines(lines);
    OnlyLastSectionMayBeEmpty(lines);
  }

  // ---------------------------------------------------------------------
  // Section parsing
  // ---------------------------------------------------------------------

  predicate IsSpaceOrStar(c: char) {
    c == ' ' || c == '*'
  }

  /** str.strip(' *') on the first line of a section: no space or '*' at either end. */
  function SectionName(line: string): (name: string)
    ensures IsStripped(name, IsSpaceOrStar)
    ensures name == "" <==> forall k :: 0 <= k < |line| ==> IsSpaceOrStar(line[k])
  {
    Strip(line, IsSpaceOrStar)
  }

  /**
   * One record of csv.reader with the given delimiter and no quoting: an
   * empty line holds no cell; any other line is the cells between
   * delimiters, which joined back with the delimiter give the line.
   */
  function CsvRecord(line: string, delimiter: char): (cells: seq<string>)
    ensures line == "" ==> cells == []
    ensures line != "" ==>
              |cells| >= 1 && Join(cells, delimiter) == line
              && forall i :: 0 <= i < |cells| ==> delimiter !in cells[i]
  {
    if line == "" then []
    else
      JoinSplit(line, delimiter);
      Split(line, delimiter)
  }

  /**
   * Parses one section: an empty section has no name line to read; a
   * section with only a name has no header and yields no entry; otherwise
   * the second line is the header and every further line a row.
   */
  function ParseSection(lines: seq<string>, delimiter: char): (r: Result<ParsedSection, DecodeError>)
    ensures lines == [] <==> r == Err(EmptySection)
    ensures |lines| == 1 ==> r == Ok(Unnamed)
    ensures |lines| >= 2 ==>
              r.Ok? && r.value.Named?
              && r.value.name == SectionName(lines[0])
              && r.value.section.header == CsvRecord(lines[1], delimiter)
              && |r.value.section.rows| == |lines| - 2
              && forall i :: 0 <= i < |lines| - 2 ==> r.value.section.rows[i] == CsvRecord(lines[i + 2], delimiter)
  {
    if lines == [] then Err(EmptySection)
    // the csv reader over the lines after the name yields no header record
    else if |lines| == 1 then Ok(Unnamed)
    else
      var header := CsvRecord(lines[1], delimiter);
      var rows := seq(|lines| - 2, i requires 0 <= i < |lines| - 2 => CsvRecord(lines[i + 2], delimiter));
      assert |rows| == |lines| - 2 && forall i :: 0 <= i < |rows| ==> rows[i] == CsvRecord(lines[i + 2], delimiter);
      Ok(Named(SectionName(lines[0]), Section(header, rows)))
  }

  /** A record survives writing it out as a line and reading it back. */
  predicate Writable(cells: seq<string>, delimiter: char) {
    cells != [""] && forall i :: 0 <= i < |cells| ==> delimiter !in cells[i]
  }

  /** The lines of a section as the report writes them. */
  function SectionLines(name: string, section: Section, delimiter: char): seq<string> {
    [name, Join(section.header, delimiter)]
    + seq(|section.rows|, i requires 0 <= i < |section.rows| => Join(section.rows[i], delimiter))
  }

  lemma CsvRecordJoin(cells: seq<string>, delimiter: char)
    requires Writable(cells, delimiter)
    ensures CsvRecord(Join(cells, delimiter), delimiter) == cells
  {
    if cells != [] {
      SplitJoin(cells, delimiter);
      assert |cells| >= 2 ==> Join(cells, delimiter)[|cells[0]|] == delimiter;
    }
  }

  /** Writing a named section out and parsing it back gives the same name and Section. */
  lemma ParseSectionLines(name: string, section: Section, delimiter: char)
    requires IsStripped(name, IsSpaceOrStar)
    requires Writable(section.header, delimiter)
    requires forall i :: 0 <= i < |section.rows| ==> Writable(section.rows[i], delimiter)
    ensures ParseSection(SectionLines(name, section, delimiter), delimiter) == Ok(Named(name, section))
  {
    var lines := SectionLines(name, section, delimiter);
    assert |lines| == |section.rows| + 2 && lines[0] == name && lines[1] == Join(section.header, delimiter);
    CsvRecordJoin(section.header, delimiter);
    forall i | 0 <= i < |section.rows|
      ensures CsvRecord(lines[i + 2], delimiter) == section.rows[i]
    {
      assert lines[i + 2] == Join(section.rows[i], delimiter);
      CsvRecordJoin(section.rows[i], delimiter);
    }
    var r := ParseSection(lines, delimiter).value;
    assert r.name == name && r.section.header == section.header;
    assert r.section.rows == section.rows;
  }

  /** `entries` are the parsed forms of `sections`, one for one. */
  ghost predicate ParsedFrom(entries: seq<ParsedSection>, sections: seq<seq<string>>, delimiter: char) {
    |entries| == |sections|
    && forall i :: 0 <= i < |sections| ==> Ok(entries[i]) == ParseSection(sections[i], delimiter)
  }

  lemma ParsedFromAppend(entries: seq<ParsedSection>, sections: seq<seq<string>>, delimiter: char,
                         entry: ParsedSection, section: seq<string>)
    requires ParsedFrom(entries, sections, delimiter)
    requires Ok(entry) == ParseSection(section, delimiter)
    ensures ParsedFrom(entries + [entry], sections + [section], delimiter)
  {
    var e, s := entries + [entry], sections + [section];
    forall i | 0 <= i < |s|
      ensures Ok(e[i]) == ParseSection(s[i], delimiter)
    {
      if i < |sections| {
        assert e[i] == entries[i] && s[i] == sections[i];
      }
    }
  }

  /** Parses the sections in order; the first empty one stops the decoding. */
  function ParseSections(sections: seq<seq<string>>, delimiter: char): (r: Result<seq<ParsedSection>, DecodeError>)
    ensures r.Ok? <==> forall i :: 0 <= i < |sections| ==> sections[i] != []
    ensures r.Err? ==> r.error == EmptySection
    ensures r.Ok? ==>
              |r.value| == |sections|
              && forall i :: 0 <= i < |sections| ==> Ok(r.value[i]) == ParseSection(sections[i], delimiter)
  {
    if sections == [] then Ok([])
    else
      var init := sections[..|sections| - 1];
      assert sections == init + [Last(sections)];
      var parsed := ParseSections(init, delimiter);
      var last := ParseSection(Last(sections), delimiter);
      if parsed.Err? then
        assert exists i :: 0 <= i < |init| && init[i] == [];
        Err(parsed.error)
      else if last.Err? then
        Err(last.error)
      else
        assert ParsedFrom(parsed.value, init, delimiter);
        ParsedFromAppend(parsed.value, init, delimiter, last.value, Last(sections));
        Ok(parsed.value + [last.value])
  }

  // ---------------------------------------------------------------------
  // Assembling the result
  // ---------------------------------------------------------------------

  /** No entry after position i is named like the entry at i. */
  ghost predicate LastNamed(parsed: seq<ParsedSection>, i: nat)
    requires i < |parsed| && parsed[i].Named?
  {
    forall j :: i < j < |parsed| ==> !(parsed[j].Named? && parsed[j].name == parsed[i].name)
  }

  /**
   * `m` is the dictionary built from `parsed` in order: a name is a key
   * exactly when some entry carries it, and it holds the Section of the
   * last entry carrying it.
   */
  ghost predicate AssembledFrom(m: map<string, Section>, parsed: seq<ParsedSection>) {
    m.Keys == (set i | 0 <= i < |parsed| && parsed[i].Named? :: parsed[i].name)
    && forall i :: 0 <= i < |parsed| && parsed[i].Named? && LastNamed(parsed, i) ==>
         m[parsed[i].name] == parsed[i].section
  }

  /** Inserting one more entry keeps the dictionary assembled from the entries so far. */
  lemma InsertParsed(m: map<string, Section>, parsed: seq<ParsedSection>, entry: ParsedSection)
    requires AssembledFrom(m, parsed)
    ensures AssembledFrom(match entry case Unnamed => m case Named(name, section) => m[name := section],
                          parsed + [entry])
  {
    var all := parsed + [entry];
    assert forall i :: 0 <= i < |parsed| ==> all[i] == parsed[i];
    var m' := match entry case Unnamed => m case Named(name, section) => m[name := section];
    assert m'.Keys == (set i | 0 <= i < |all| && all[i].Named? :: all[i].name) by {
      if entry.Named? {
        assert all[|parsed|] == entry;
      }
    }
    forall i | 0 <= i < |all| && all[i].Named? && LastNamed(all, i)
      ensures m'[all[i].name] == all[i].section
    {
      if i < |parsed| {
        assert LastNamed(parsed, i);
        if entry.Named? {
          assert all[|parsed|] == entry;
        }
      }
    }
  }

  /**
   * The dictionary built from the parsed sections in order, without the
   * entry of header-less sections: a name is a key exactly when some
   * section carries it, and it holds the Section of the last one.
   */
  function Assemble(parsed: seq<ParsedSection>): (m: map<string, Section>)
    ensures m.Keys == set i | 0 <= i < |parsed| && parsed[i].Named? :: parsed[i].name
    ensures forall i :: 0 <= i < |parsed| && parsed[i].Named? && LastNamed(parsed, i) ==>
              m[parsed[i].name] == parsed[i].section
  {
    if parsed == [] then map[]
    else
      var init := parsed[..|parsed| - 1];
      var m := Assemble(init);
      assert AssembledFrom(m, init);
      assert parsed == init + [Last(parsed)];
      InsertParsed(m, init, Last(parsed));
      match Last(parsed)
      case Unnamed => m
      case Named(name, section) => m[name := section]
  }

  /** Decoding once detection and splitting are done: parse every section, then assemble. */
  function DecodeSplit(detected: Result<Characteristics, DecodeError>, sections: seq<seq<string>>)
    : (r: Result<map<string, Section>, DecodeError>)
    ensures detected.Err? ==> r == Err(detected.error)
    ensures r.Err? && detected.Ok? ==> r.error == EmptySection
  {
    var characteristics :- detected;
    var parsed :- ParseSections(sections, characteristics.delimiter);
    Ok(Assemble(parsed))
  }

  /** The whole decoding of a report, as a function of its lines. */
  function Decode(lines: seq<string>): (r: Result<map<string, Section>, DecodeError>)
    ensures r == Err(BannerNotFound) <==> forall j :: 0 <= j < |lines| ==> !IsBanner(lines[j])
    ensures Detected(lines).Err? ==> r == Err(Detected(lines).error)
    ensures r.Err? && Detected(lines).Ok? ==> r.error == EmptySection
  {
    DecodeSplit(Detected(lines), SectionsOf(lines))
  }

  /** A report without a banner line is not recognised, whatever else it holds. */
  lemma DecodeWithoutBanner(lines: seq<string>)
    requires forall j :: 0 <= j < |lines| ==> !IsBanner(lines[j])
    ensures Decode(lines) == Err(BannerNotFound)
  {
  }

  /**
   * Once the banner is read, decoding fails exactly when the last section is
   * empty, and then with EmptySection: every other section has lines.
   */
  lemma DecodeFailsIffLastSectionEmpty(lines: seq<string>)
    requires Detected(lines).Ok?
    ensures Decode(lines).Err? <==> Last(SectionsOf(lines)) == []
    ensures Decode(lines).Err? ==> Decode(lines).error == EmptySection
  {
    var sections := SectionsOf(lines);
    OnlyLastSectionMayBeEmpty(lines);
    assert (forall i :: 0 <= i < |sections| ==> sections[i] != []) <==> Last(sections) != [];
    var parsed := ParseSections(sections, Detected(lines).value.delimiter);
    assert Decode(lines).Err? <==> parsed.Err?;
  }

  /** The section a name stands for: at least a name line and a header line. */
  ghost predicate NamesSection(section: seq<string>, name: string) {
    |section| >= 2 && SectionName(section[0]) == name
  }

  /** The parsed entry of a section is named `name` exactly when the section names it. */
  lemma ParsedNames(sections: seq<seq<string>>, delimiter: char, i: nat, name: string)
    requires ParseSections(sections, delimiter).Ok? && i < |sections|
    ensures var entry := ParseSections(sections, delimiter).value[i];
            (entry.Named? && entry.name == name) <==> NamesSection(sections[i], name)
  {
    assert sections[i] != [];
  }

  /** What a successful decoding is made of. */
  lemma DecodeOk(lines: seq<string>, m: map<string, Section>)
    requires Decode(lines) == Ok(m)
    ensures Detected(lines).Ok?
    ensures ParseSections(SectionsOf(lines), Detected(lines).value.delimiter).Ok?
    ensures m == Assemble(ParseSections(SectionsOf(lines), Detected(lines).value.delimiter).value)
  {
  }

  /** A name is a key of the assembled map exactly when some section with a header line carries it. */
  lemma AssembledNames(sections: seq<seq<string>>, delimiter: char, name: string)
    requires ParseSections(sections, delimiter).Ok?
    ensures name in Assemble(ParseSections(sections, delimiter).value)
            <==> exists i :: 0 <= i < |sections| && NamesSection(sections[i], name)
  {
    var parsed := ParseSections(sections, delimiter).value;
    var m := Assemble(parsed);
    if name in m {
      var i :| 0 <= i < |parsed| && parsed[i].Named? && parsed[i].name == name;
      ParsedNames(sections, delimiter, i, name);
    }
    if i :| 0 <= i < |sections| && NamesSection(sections[i], name) {
      ParsedNames(sections, delimiter, i, name);
      assert parsed[i].Named? && parsed[i].name == name;
    }
  }

  /**
   * In a decoded report a name is a key exactly when some section with a
   * header line carries it.
   */
  lemma DecodedNames(lines: seq<string>, m: map<string, Section>, name: string)
    requires Decode(lines) == Ok(m)
    ensures var sections := SectionsOf(lines);
            name in m <==> exists i :: 0 <= i < |sections| && NamesSection(sections[i], name)
  {
    DecodeOk(lines, m);
    AssembledNames(SectionsOf(lines), Detected(lines).value.delimiter, name);
  }

  /** The value under a name comes from the last section with a header line carrying it. */
  lemma AssembledLastWins(sections: seq<seq<string>>, delimiter: char, name: string, i: nat)
    requires ParseSections(sections, delimiter).Ok?
    requires i < |sections| && NamesSection(sections[i], name)
    requires forall j :: i < j < |sections| ==> !NamesSection(sections[j], name)
    ensures var m := Assemble(ParseSections(sections, delimiter).value);
            name in m && m[name] == ParseSection(sections[i], delimiter).value.section
  {
    var parsed := ParseSections(sections, delimiter).value;
    ParsedNames(sections, delimiter, i, name);
    forall j | i < j < |parsed|
      ensures !(parsed[j].Named? && parsed[j].name == name)
    {
      ParsedNames(sections, delimiter, j, name);
    }
    assert LastNamed(parsed, i);
  }

  /**
   * The value under a name is read from the last section carrying it (last
   * write wins): its header is the second line's record and its rows the
   * records of the lines after it. Header-less sections never remove or
   * replace an entry.
   */
  lemma DecodeLastWriteWins(lines: seq<string>, m: map<string, Section>, name: string, i: nat)
    requires Decode(lines) == Ok(m)
    requires i < |SectionsOf(lines)| && NamesSection(SectionsOf(lines)[i], name)
    requires forall j :: i < j < |SectionsOf(lines)| ==> !NamesSection(SectionsOf(lines)[j], name)
    ensures var section := SectionsOf(lines)[i];
            var delimiter := Detected(lines).value.delimiter;
            name in m
            && m[name].header == CsvRecord(section[1], delimiter)
            && |m[name].rows| == |section| - 2
            && forall k :: 0 <= k < |section| - 2 ==> m[name].rows[k] == CsvRecord(section[k + 2], delimiter)
  {
    DecodeOk(lines, m);
    AssembledLastWins(SectionsOf(lines), Detected(lines).value.delimiter, name, i);
  }

  /** A stripped banner line is kept by the splitter. */
  lemma BannerIsContent(line: string)
    requires IsBanner(line)
    ensures IsContent(StripSpace(line))
  {
    assert line[0] == BannerPrefix[0] == 'P';
    assert !IsSpace('P');
    assert StripSpace(line)[0] == 'P';
  }

  /** A kept line anywhere in the report makes the kept lines non-empty. */
  lemma {:induction false} KeptNonEmpty(lines: seq<string>, i: nat)
    requires i < |lines| && IsContent(StripSpace(lines[i]))
    ensures Kept(lines) != []
    decreases |lines|
  {
    if i < |lines| - 1 {
      var init := lines[..|lines| - 1];
      assert init[i] == lines[i];
      KeptNonEmpty(init, i);
    }
  }

  /** Lines after the first banner do not change what detection yields. */
  lemma DetectedIgnoresLaterLines(lines: seq<string>, more: seq<string>)
    requires FirstBanner(lines).Some?
    ensures Detected(lines + more) == Detected(lines)
  {
    var i := FirstBanner(lines).value;
    var all := lines + more;
    forall j | 0 <= j <= i
      ensures all[j] == lines[j]
    {
    }
    FirstBannerAt(all, i);
  }

  /**
   * A recognised report whose last non-blank line is a separator cannot be
   * decoded: the empty section after the separator reaches the parser.
   */
  lemma DecodeFailsAfterTrailingSeparator(lines: seq<string>, separator: string)
    requires Detected(lines).Ok?
    requires IsSeparator(StripSpace(separator))
    ensures Decode(lines + [separator]) == Err(EmptySection)
  {
    var i := FirstBanner(lines).value;
    DetectedIgnoresLaterLines(lines, [separator]);
    BannerIsContent(lines[i]);
    KeptNonEmpty(lines, i);
    TrailingSeparatorLeavesEmptySection(lines, separator);
    DecodeFailsIffLastSectionEmpty(lines + [separator]);
  }

  /** A blank line is never a banner. */
  lemma BlankIsNotBanner(blank: string)
    requires StripSpace(blank) == ""
    ensures !IsBanner(blank)
  {
    if IsBanner(blank) {
      BannerIsContent(blank);
    }
  }

  /** Appending a line that is not a banner to lines without one leaves none. */
  lemma NoBannerAppend(lines: seq<string>, line: string)
    requires FirstBanner(lines).None? && !IsBanner(line)
    ensures FirstBanner(lines + [line]).None?
  {
    var all := lines + [line];
    forall j | 0 <= j < |all|
      ensures !IsBanner(all[j])
    {
      if j < |lines| {
        assert all[j] == lines[j];
      }
    }
  }

  /** Appending a blank line leaves detection as it was. */
  lemma DetectedIgnoresBlankLine(lines: seq<string>, blank: string)
    requires StripSpace(blank) == ""
    ensures Detected(lines + [blank]) == Detected(lines)
  {
    if FirstBanner(lines).Some? {
      DetectedIgnoresLaterLines(lines, [blank]);
    } else {
      BlankIsNotBanner(blank);
      NoBannerAppend(lines, blank);
    }
  }

  /** A blank line appended to a report changes nothing. */
  lemma DecodeIgnoresBlankLine(lines: seq<string>, blank: string)
    requires StripSpace(blank) == ""
    ensures Decode(lines + [blank]) == Decode(lines)
  {
    BlankLineIgnored(lines, blank);
    DetectedIgnoresBlankLine(lines, blank);
  }

  /** Parsing one more section extends the parsed prefix and the dictionary by that section. */
  lemma ParseOneMore(sections: seq<seq<string>>, i: nat, delimiter: char)
    requires i < |sections|
    requires ParseSections(sections[..i], delimiter).Ok?
    requires ParseSection(sections[i], delimiter).Ok?
    ensures ParseSections(sections[..i + 1], delimiter).Ok?
    ensures var before := ParseSections(sections[..i], delimiter).value;
            var after := ParseSections(sections[..i + 1], delimiter).value;
            after == before + [ParseSection(sections[i], delimiter).value]
            && Assemble(after) == match ParseSection(sections[i], delimiter).value
                                  case Unnamed => Assemble(before)
                                  case Named(name, section) => Assemble(before)[name := section]
  {
    var prefix := sections[..i + 1];
    assert prefix[..i] == sections[..i];
    assert Last(prefix) == sections[i];
    var after := ParseSections(prefix, delimiter).value;
    assert after[..|after| - 1] == ParseSections(sections[..i], delimiter).value;
  }

  /** Decodes the lines of a report into a map from section name to Section. */
  method ParseOutput(lines: seq<string>) returns (r: Result<map<string, Section>, DecodeError>)
    ensures r == Decode(lines)
  {
    var characteristics := DetectCharacteristics(lines);
    if characteristics.Err? {
      return Err(characteristics.error);
    }
    var delimiter := characteristics.value.delimiter;
    var sections := SplitSections(lines);
    var d: map<string, Section> := map[];
    for i := 0 to |sections|
      invariant ParseSections(sections[..i], delimiter).Ok?
      invariant d == Assemble(ParseSections(sections[..i], delimiter).value)
    {
      var parsed := ParseSection(sections[i], delimiter);
      if parsed.Err? {
        assert sections[i] == [];
        assert ParseSections(sections, delimiter).Err?;
        return Err(parsed.error);
      }
      ParseOneMore(sections, i, delimiter);
      // the header-less entry (key None in the dictionary) is left out
      if parsed.value.Named? {
        d := d[parsed.value.name := parsed.value.section];
      }
    }
    assert sections[..|sections|] == sections;
    return Ok(d);
  }
}
