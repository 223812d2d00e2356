/** The notice format engine of `src/format.rs`: the comment style of a file,
    the two notice lines (`SPDX-License-Identifier` and `Copyright (c)`), the
    check of a file's first two lines, and the rewrite that puts a fresh
    notice at the top of a file.

    A file is its sequence of lines as `BufRead::lines` yields them (no
    terminators); the current year is a parameter. */
module Notice {
  import opened Wrappers
  import opened Text
  import opened Decimal
  import opened Lex

  /** The comment style of a file: `// ...` or `# ...`. */
  datatype Format = SlashSlash | Hash

  /** The extensions of the files that take `#` comments, in ascending order. */
  const HashFormatExtensions: seq<string> := [
    "bash", "ini", "mk", "php", "phtml", "pl", "pm", "ps1", "psd1", "psm1", "py", "r", "rb", "sh",
    "tcl", "toml", "yaml", "yml", "zsh"
  ]

  /** The year assumed when a copyright line's start year does not parse. */
  const EpochYear: U32 := 2025

  /** The extension table is sorted, as binary search over it needs. */
  lemma HashFormatExtensionsSorted()
    ensures StrictlySorted(HashFormatExtensions)
  {
    ExtensionsAscendFrom0();
    ExtensionsAscendFrom6();
    ExtensionsAscendFrom12();
    AdjacentSortedIsSorted(HashFormatExtensions);
  }

  lemma ExtensionsAscendFrom0()
    ensures forall i :: 0 < i <= 6 ==> LexLess(HashFormatExtensions[i - 1], HashFormatExtensions[i])
  {
    var t := HashFormatExtensions;
    assert LexLess(t[0], t[1]) && LexLess(t[1], t[2]) && LexLess(t[2], t[3]);
    assert LexLess(t[3], t[4]) && LexLess(t[4], t[5]) && LexLess(t[5], t[6]);
  }

  lemma ExtensionsAscendFrom6()
    ensures forall i :: 6 < i <= 12 ==> LexLess(HashFormatExtensions[i - 1], HashFormatExtensions[i])
  {
    var t := HashFormatExtensions;
    assert LexLess(t[6], t[7]) && LexLess(t[7], t[8]) && LexLess(t[8], t[9]);
    assert LexLess(t[9], t[10]) && LexLess(t[10], t[11]) && LexLess(t[11], t[12]);
  }

  lemma ExtensionsAscendFrom12()
    ensures forall i :: 12 < i < |HashFormatExtensions| ==> LexLess(HashFormatExtensions[i - 1], HashFormatExtensions[i])
  {
    var t := HashFormatExtensions;
    assert LexLess(t[12], t[13]) && LexLess(t[13], t[14]) && LexLess(t[14], t[15]);
    assert LexLess(t[15], t[16]) && LexLess(t[16], t[17]) && LexLess(t[17], t[18]);
  }

  /** `Format::from_path`, given the path's extension as `Path::extension`
      reports it (`None` when there is none or it is not UTF-8). */
  function FromPath(extension: Option<string>): (f: Format)
    ensures f == Hash <==> extension.Some? && extension.value in HashFormatExtensions
  {
    match extension
    case None => SlashSlash
    case Some(ext) =>
      HashFormatExtensionsSorted();
      if BinarySearch(HashFormatExtensions, ext, 0, |HashFormatExtensions|) then Hash else SlashSlash
  }

  function CommentToken(f: Format): string {
    match f
    case SlashSlash => "//"
    case Hash => "#"
  }

  function LicensePrefix(f: Format): string {
    CommentToken(f) + " SPDX-License-Identifier: "
  }

  function CopyrightPrefix(f: Format): string {
    CommentToken(f) + " Copyright (c) "
  }

  /** No line carries both prefixes: they part at the character after the comment token. */
  lemma PrefixesExclusive(f: Format, line: string)
    ensures !(LicensePrefix(f) <= line && CopyrightPrefix(f) <= line)
  {
    var k := |CommentToken(f)| + 1;
    assert LicensePrefix(f)[k] == 'S' && CopyrightPrefix(f)[k] == 'C';
  }

  /** `Format::check_strip_license_line`: the SPDX id of a license line. */
  function StripLicenseLine(f: Format, line: string): (r: Option<string>)
    ensures r.Some? <==> IsLicenseLine(f, line)
    ensures r.Some? ==> line == LicensePrefix(f) + r.value
  {
    StripPrefix(line, LicensePrefix(f))
  }

  /** `Format::check_strip_copyright_line`: the `YYYY[-YYYY] HOLDER` text of a copyright line. */
  function StripCopyrightLine(f: Format, line: string): (r: Option<string>)
    ensures r.Some? <==> IsCopyrightLine(f, line)
    ensures r.Some? ==> line == CopyrightPrefix(f) + r.value
  {
    StripPrefix(line, CopyrightPrefix(f))
  }

  datatype CopyrightInfo = CopyrightInfo(yearStart: U32, yearEnd: U32, holder: string)

  function Max(a: U32, b: U32): U32 {
    if a < b then b else a
  }

  /** `parse_copyright_info`: the years are the text before the first space,
      the holder everything after it. The years split at the first `-`; a
      start that does not parse is the epoch year, an end that is missing or
      does not parse is the start, and the end is raised to the start. */
  function ParseCopyrightInfo(info: string): (r: CopyrightInfo)
    ensures r.yearStart <= r.yearEnd
    ensures ' ' !in info ==> r.holder == ""
  {
    var (years, holder) := SplitOnce(info, ' ');
    var (startText, endText) := SplitOnce(years, '-');
    var yearStart := ParseU32(startText).GetOr(EpochYear);
    var yearEnd := if endText.Some? then ParseU32(endText.value).GetOr(yearStart) else yearStart;
    CopyrightInfo(yearStart, Max(yearEnd, yearStart), holder.GetOr(""))
  }

  /** Every copyright text has this shape: a start token, an optional `-`
      and end token, an optional space and holder. */
  function CopyrightText(startText: string, endText: Option<string>, holder: Option<string>): string {
    startText
      + (if endText.Some? then "-" + endText.value else "")
      + (if holder.Some? then " " + holder.value else "")
  }

  /** How each part of a copyright text is read: the holder is everything
      after the first space, spaces included, or empty; an unparseable
      start is the epoch year; a missing or unparseable end is the start. */
  lemma ParseCopyrightText(startText: string, endText: Option<string>, holder: Option<string>)
    requires ' ' !in startText && '-' !in startText
    requires endText.Some? ==> ' ' !in endText.value
    ensures var r := ParseCopyrightInfo(CopyrightText(startText, endText, holder));
      && r.holder == holder.GetOr("")
      && r.yearStart == (if ParseU32(startText).Some? then ParseU32(startText).value else EpochYear)
      && (endText.None? || ParseU32(endText.value).None? ==> r.yearEnd == r.yearStart)
      && (endText.Some? && ParseU32(endText.value).Some? ==> r.yearEnd == Max(ParseU32(endText.value).value, r.yearStart))
  {
    var info := CopyrightText(startText, endText, holder);
    var years := startText + (if endText.Some? then "-" + endText.value else "");
    assert ' ' !in years;
    if holder.Some? {
      assert info == years + [' '] + holder.value;
      SplitOnceAt(years, ' ', holder.value);
    } else {
      assert info == years;
    }
    assert SplitOnce(info, ' ').0 == years;
    if endText.Some? {
      assert years == startText + ['-'] + endText.value;
      SplitOnceAt(startText, '-', endText.value);
    } else {
      assert years == startText;
    }
  }

  /** The year field `format` writes: the start alone in its own year, else `start-current`. */
  function YearRange(yearStart: U32, year: U32): string {
    if yearStart == year then Render(yearStart) else Render(yearStart) + "-" + Render(year)
  }

  /** `Format::format`: the license line and the copyright line, each ended by `'\n'`. */
  function RenderNotice(f: Format, yearStart: U32, holder: string, license: string, year: U32): (r: string)
    ensures |r| > 0 && r[|r| - 1] == '\n'
    ensures LicensePrefix(f) <= r
  {
    LicenseLine(f, license) + "\n" + CopyrightLine(f, RenderedInfo(yearStart, holder, year)) + "\n"
  }

  function LicenseLine(f: Format, license: string): string {
    LicensePrefix(f) + license
  }

  function CopyrightLine(f: Format, info: string): string {
    CopyrightPrefix(f) + info
  }

  /** The year field of a rendered copyright line reads back as the start
      year and, unless the start lies beyond it, the current year. */
  lemma ParseRenderedInfo(yearStart: U32, holder: string, year: U32)
    ensures ParseCopyrightInfo(YearRange(yearStart, year) + " " + holder)
      == CopyrightInfo(yearStart, Max(year, yearStart), holder)
  {
    RenderHasNoSeparator(yearStart);
    ParseRender(yearStart);
    if yearStart == year {
      ParseSingleYear(Render(yearStart), holder);
    } else {
      RenderHasNoSeparator(year);
      ParseRender(year);
      ParseYearPair(Render(yearStart), Render(year), holder);
    }
  }

  lemma ParseSingleYear(startText: string, holder: string)
    requires ' ' !in startText && '-' !in startText
    requires ParseU32(startText).Some?
    ensures ParseCopyrightInfo(startText + " " + holder)
      == CopyrightInfo(ParseU32(startText).value, ParseU32(startText).value, holder)
  {
    assert startText + " " + holder == CopyrightText(startText, None, Some(holder));
    ParseCopyrightText(startText, None, Some(holder));
  }

  lemma ParseYearPair(startText: string, endText: string, holder: string)
    requires ' ' !in startText && '-' !in startText && ' ' !in endText
    requires ParseU32(startText).Some? && ParseU32(endText).Some?
    ensures ParseCopyrightInfo(startText + "-" + endText + " " + holder)
      == CopyrightInfo(ParseU32(startText).value, Max(ParseU32(endText).value, ParseU32(startText).value), holder)
  {
    assert startText + "-" + endText + " " + holder == CopyrightText(startText, Some(endText), Some(holder));
    ParseCopyrightText(startText, Some(endText), Some(holder));
  }

  /** A comment prefix followed by a safe text is a safe line. */
  lemma PrefixedLineSafe(prefix: string, s: string)
    requires '\n' !in prefix && |prefix| > 0 && prefix[|prefix| - 1] == ' '
    requires LineSafe(s)
    ensures LineSafe(prefix + s)
  {
    if s == [] {
      assert prefix + s == prefix;
    }
  }

  /** The text after the copyright prefix in a rendered notice. */
  function RenderedInfo(yearStart: U32, holder: string, year: U32): string {
    YearRange(yearStart, year) + " " + holder
  }

  lemma PrefixesHaveNoNewline(f: Format)
    ensures '\n' !in LicensePrefix(f) && '\n' !in CopyrightPrefix(f)
    ensures LicensePrefix(f)[|LicensePrefix(f)| - 1] == ' '
  {
  }

  lemma RenderedLinesSafe(f: Format, yearStart: U32, holder: string, license: string, year: U32)
    requires LineSafe(holder) && LineSafe(license)
    ensures LineSafe(LicenseLine(f, license))
    ensures LineSafe(CopyrightLine(f, RenderedInfo(yearStart, holder, year)))
  {
    PrefixesHaveNoNewline(f);
    PrefixedLineSafe(LicensePrefix(f), license);
    var years := YearRange(yearStart, year);
    assert '\n' !in years by {
      RenderHasNoSeparator(yearStart);
      RenderHasNoSeparator(year);
    }
    CopyrightLineSafe(CopyrightPrefix(f), years, holder);
  }

  lemma CopyrightLineSafe(prefix: string, years: string, holder: string)
    requires '\n' !in prefix && '\n' !in years
    requires LineSafe(holder)
    ensures LineSafe(prefix + (years + " " + holder))
  {
    var head := prefix + years + " ";
    assert prefix + (years + " " + holder) == head + holder;
    PrefixedLineSafe(head, holder);
  }

  /** A rendered notice is read back as exactly its two lines. */
  lemma LinesOfNotice(f: Format, yearStart: U32, holder: string, license: string, year: U32, rest: string)
    requires LineSafe(holder) && LineSafe(license)
    ensures Lines(RenderNotice(f, yearStart, holder, license, year) + rest)
      == [LicenseLine(f, license), CopyrightLine(f, RenderedInfo(yearStart, holder, year))] + Lines(rest)
  {
    RenderedLinesSafe(f, yearStart, holder, license, year);
    LinesTwo(LicenseLine(f, license), CopyrightLine(f, RenderedInfo(yearStart, holder, year)), rest);
  }

  /** The two lines `format` writes read back as the license, the start
      year, the holder, and an end year that is the current year unless the
      start lies beyond it. */
  lemma RenderRoundTrip(f: Format, yearStart: U32, holder: string, license: string, year: U32, rest: string)
    requires LineSafe(holder) && LineSafe(license)
    ensures var ls := Lines(RenderNotice(f, yearStart, holder, license, year) + rest);
      && |ls| >= 2
      && ls[2..] == Lines(rest)
      && StripLicenseLine(f, ls[0]) == Some(license)
      && StripCopyrightLine(f, ls[1]).Some?
      && ParseCopyrightInfo(StripCopyrightLine(f, ls[1]).value)
         == CopyrightInfo(yearStart, Max(year, yearStart), holder)
  {
    LinesOfNotice(f, yearStart, holder, license, year, rest);
    ParseRenderedInfo(yearStart, holder, year);
    var info := RenderedInfo(yearStart, holder, year);
    assert StripCopyrightLine(f, CopyrightLine(f, info)) == Some(info);
    assert StripLicenseLine(f, LicenseLine(f, license)) == Some(license);
  }

  /** Why `check_file` rejects a file. */
  datatype CheckError =
    | MissingLicenseLine
    | WrongLicense(found: string)
    | MissingCopyrightLine
    | CopyrightNotAtTop
    | WrongHolder(foundHolder: string)
    | OutdatedYear(yearEnd: U32)

  /** `check_file` on a file's lines: the first line must be the license
      line for `license`, the second a copyright line naming `holder` whose
      range ends in the current year. */
  function CheckFile(f: Format, lines: seq<string>, holder: string, license: string, year: U32): (r: Result<(), CheckError>)
    ensures r.Ok? <==>
      && |lines| >= 2
      && lines[0] == LicensePrefix(f) + license
      && CopyrightPrefix(f) <= lines[1]
      && ParseCopyrightInfo(lines[1][|CopyrightPrefix(f)|..]).holder == holder
      && ParseCopyrightInfo(lines[1][|CopyrightPrefix(f)|..]).yearEnd == year
    ensures r == Err(MissingLicenseLine) <==> |lines| == 0 || !(LicensePrefix(f) <= lines[0])
    ensures r.Err? && r.error.WrongLicense? <==>
      |lines| > 0 && LicensePrefix(f) <= lines[0] && lines[0][|LicensePrefix(f)|..] != license
    ensures r.Err? && r.error.WrongLicense? ==>
      lines[0] == LicensePrefix(f) + r.error.found && r.error.found != license
    ensures r == Err(MissingCopyrightLine) <==> lines == [LicensePrefix(f) + license]
    ensures r == Err(CopyrightNotAtTop) <==>
      |lines| >= 2 && lines[0] == LicensePrefix(f) + license && !(CopyrightPrefix(f) <= lines[1])
    ensures r.Err? && r.error.WrongHolder? <==>
      && |lines| >= 2
      && lines[0] == LicensePrefix(f) + license
      && CopyrightPrefix(f) <= lines[1]
      && ParseCopyrightInfo(lines[1][|CopyrightPrefix(f)|..]).holder != holder
    ensures r.Err? && r.error.WrongHolder? ==>
      r.error.foundHolder == ParseCopyrightInfo(lines[1][|CopyrightPrefix(f)|..]).holder
    ensures r.Err? && r.error.OutdatedYear? <==>
      && |lines| >= 2
      && lines[0] == LicensePrefix(f) + license
      && CopyrightPrefix(f) <= lines[1]
      && ParseCopyrightInfo(lines[1][|CopyrightPrefix(f)|..]).holder == holder
      && ParseCopyrightInfo(lines[1][|CopyrightPrefix(f)|..]).yearEnd != year
    ensures r.Err? && r.error.OutdatedYear? ==>
      r.error.yearEnd == ParseCopyrightInfo(lines[1][|CopyrightPrefix(f)|..]).yearEnd
  {
    if |lines| == 0 then Err(MissingLicenseLine)
    else match StripLicenseLine(f, lines[0])
      case None => Err(MissingLicenseLine)
      case Some(actualLicense) =>
        if actualLicense != license then Err(WrongLicense(actualLicense))
        else if |lines| < 2 then Err(MissingCopyrightLine)
        else match StripCopyrightLine(f, lines[1])
          case None => Err(CopyrightNotAtTop)
          case Some(info) =>
            var parsed := ParseCopyrightInfo(info);
            if parsed.holder != holder then Err(WrongHolder(parsed.holder))
            else if parsed.yearEnd != year then Err(OutdatedYear(parsed.yearEnd))
            else Ok(())
  }

  /** `check_file` reads no further than the second line. */
  lemma CheckFileReadsTwoLines(f: Format, lines: seq<string>, rest: seq<string>, holder: string, license: string, year: U32)
    requires |lines| >= 2
    ensures CheckFile(f, lines + rest, holder, license, year) == CheckFile(f, lines, holder, license, year)
  {
    assert (lines + rest)[0] == lines[0] && (lines + rest)[1] == lines[1];
  }

  /** A freshly rendered notice passes the check exactly when its start year
      does not lie beyond the current year, whatever follows it. */
  lemma CheckRenderedNotice(f: Format, yearStart: U32, holder: string, license: string, year: U32, rest: string)
    requires LineSafe(holder) && LineSafe(license)
    ensures CheckFile(f, Lines(RenderNotice(f, yearStart, holder, license, year) + rest), holder, license, year).Ok?
      <==> yearStart <= year
  {
    RenderRoundTrip(f, yearStart, holder, license, year, rest);
  }

  /** The line starts with the style's SPDX prefix. */
  predicate IsLicenseLine(f: Format, line: string) {
    LicensePrefix(f) <= line
  }

  /** The line starts with the style's copyright prefix. */
  predicate IsCopyrightLine(f: Format, line: string) {
    CopyrightPrefix(f) <= line
  }

  /** A line `fix_file` consumes rather than keeps. */
  predicate IsNoticeLine(f: Format, line: string) {
    IsLicenseLine(f, line) || IsCopyrightLine(f, line)
  }

  function CountLicenseLines(f: Format, lines: seq<string>): nat {
    if lines == [] then 0
    else CountLicenseLines(f, lines[..|lines| - 1]) + (if IsLicenseLine(f, lines[|lines| - 1]) then 1 else 0)
  }

  function CountCopyrightLines(f: Format, lines: seq<string>): nat {
    if lines == [] then 0
    else CountCopyrightLines(f, lines[..|lines| - 1]) + (if IsCopyrightLine(f, lines[|lines| - 1]) then 1 else 0)
  }

  /** The lines that are not notice lines, in their original order. */
  function Retained(f: Format, lines: seq<string>): (r: seq<string>)
    ensures forall i :: 0 <= i < |r| ==> !IsNoticeLine(f, r[i]) && r[i] in lines
  {
    if lines == [] then []
    else
      var init := Retained(f, lines[..|lines| - 1]);
      var last := lines[|lines| - 1];
      if IsNoticeLine(f, last) then init else init + [last]
  }

  /** The index of the first copyright line, or the number of lines when there is none. */
  function FirstCopyrightIndex(f: Format, lines: seq<string>): (k: nat)
    ensures k <= |lines|
    ensures k < |lines| ==> IsCopyrightLine(f, lines[k])
    ensures forall i :: 0 <= i < k ==> !IsCopyrightLine(f, lines[i])
  {
    if lines == [] then 0
    else if IsCopyrightLine(f, lines[0]) then 0
    else 1 + FirstCopyrightIndex(f, lines[1..])
  }

  /** The start year of the new notice: that of the first copyright line, or
      the current year when there is none. */
  function StartYear(f: Format, lines: seq<string>, year: U32): U32 {
    var k := FirstCopyrightIndex(f, lines);
    if k < |lines| then ParseCopyrightInfo(lines[k][|CopyrightPrefix(f)|..]).yearStart else year
  }

  /** The blank line `fix_file` puts between the notice and the kept text,
      unless that text already starts with one. */
  function Separator(kept: string): string {
    if StartsWithNewline(kept) then "" else "\n"
  }

  /** What `fix_file` writes: the notice, then the kept text. */
  function FixedText(f: Format, lines: seq<string>, holder: string, license: string, year: U32): string {
    RenderNotice(f, StartYear(f, lines, year), holder, license, year) + KeptText(f, lines)
  }

  /** What follows the notice in a fixed file: the separator decided by the
      kept lines that stood before the first copyright line, then every kept line. */
  function KeptText(f: Format, lines: seq<string>): string {
    var before := Retained(f, lines[..FirstCopyrightIndex(f, lines)]);
    Separator(JoinLines(before)) + JoinLines(Retained(f, lines))
  }

  datatype FixError = DuplicateLicense | DuplicateCopyright

  /** The variables of `fix_file`'s loop: the output built once the
      copyright line has been met, the kept text from before it, and the two
      write-once flags. */
  datatype FixState = FixState(buf1: string, buf2: string, foundLicense: bool, foundCopyright: bool)

  /** One turn of `fix_file`'s loop. */
  function FixLine(f: Format, holder: string, license: string, year: U32, st: FixState, line: string): Result<FixState, FixError> {
    if StripLicenseLine(f, line).Some? then
      if st.foundLicense then Err(DuplicateLicense) else Ok(st.(foundLicense := true))
    else match StripCopyrightLine(f, line)
      case Some(info) =>
        if st.foundCopyright then Err(DuplicateCopyright)
        else
          var yearStart := ParseCopyrightInfo(info).yearStart;
          var notice := RenderNotice(f, yearStart, holder, license, year);
          Ok(st.(buf1 := st.buf1 + notice + Separator(st.buf2) + st.buf2, foundCopyright := true))
      case None =>
        if st.buf1 == [] then Ok(st.(buf2 := st.buf2 + line + "\n"))
        else Ok(st.(buf1 := st.buf1 + line + "\n"))
  }

  /** What the loop state says about the lines read so far. */
  predicate FixInvariant(f: Format, lines: seq<string>, holder: string, license: string, year: U32, st: FixState) {
    var k := FirstCopyrightIndex(f, lines);
    && st.foundLicense == (CountLicenseLines(f, lines) == 1)
    && st.foundCopyright == (k < |lines|)
    && (!st.foundCopyright ==> st.buf1 == [] && st.buf2 == JoinLines(Retained(f, lines)))
    && (st.foundCopyright ==>
          && st.buf2 == JoinLines(Retained(f, lines[..k]))
          && st.buf1 == RenderNotice(f, StartYear(f, lines, year), holder, license, year)
                        + Separator(st.buf2) + JoinLines(Retained(f, lines)))
  }

  /** `fix_file`'s loop over the lines, stopping at the first duplicate. */
  function FixLines(f: Format, holder: string, license: string, year: U32, lines: seq<string>): (r: Result<FixState, FixError>)
    ensures r.Ok? <==> CountLicenseLines(f, lines) <= 1 && CountCopyrightLines(f, lines) <= 1
    ensures r == Err(DuplicateLicense) ==> CountLicenseLines(f, lines) > 1
    ensures r == Err(DuplicateCopyright) ==> CountCopyrightLines(f, lines) > 1
    ensures r.Ok? ==> FixInvariant(f, lines, holder, license, year, r.value)
  {
    if lines == [] then Ok(FixState([], [], false, false))
    else
      var init := lines[..|lines| - 1];
      var last := lines[|lines| - 1];
      assert init + [last] == lines;
      match FixLines(f, holder, license, year, init)
      case Err(e) => Err(e)
      case Ok(st) =>
        FixLineStep(f, holder, license, year, init, last, st);
        FixLine(f, holder, license, year, st, last)
  }

  lemma FirstCopyrightIndexSnoc(f: Format, init: seq<string>, last: string)
    ensures var k := FirstCopyrightIndex(f, init);
      FirstCopyrightIndex(f, init + [last])
      == if k < |init| then k else if IsCopyrightLine(f, last) then |init| else |init| + 1
  {
    var lines := init + [last];
    var k := FirstCopyrightIndex(f, init);
    assert forall i :: 0 <= i < |init| ==> lines[i] == init[i];
    assert lines[|init|] == last;
    if k < |init| {
      FirstCopyrightIndexUnique(f, lines, k);
    } else if IsCopyrightLine(f, last) {
      FirstCopyrightIndexUnique(f, lines, |init|);
    } else {
      FirstCopyrightIndexUnique(f, lines, |init| + 1);
    }
  }

  /** The first copyright line is the one before which there is none. */
  lemma {:induction false} FirstCopyrightIndexUnique(f: Format, lines: seq<string>, k: nat)
    requires k <= |lines|
    requires k < |lines| ==> IsCopyrightLine(f, lines[k])
    requires forall i :: 0 <= i < k ==> !IsCopyrightLine(f, lines[i])
    ensures FirstCopyrightIndex(f, lines) == k
    decreases |lines|
  {
    if lines != [] && k > 0 {
      assert !IsCopyrightLine(f, lines[0]);
      var rest := lines[1..];
      assert forall i :: 0 <= i < k - 1 ==> rest[i] == lines[i + 1];
      FirstCopyrightIndexUnique(f, rest, k - 1);
    }
  }

  /** The facts about the lines read so far that one more line extends. */
  lemma SnocFacts(f: Format, init: seq<string>, last: string)
    ensures var lines := init + [last];
      && CountLicenseLines(f, lines) == CountLicenseLines(f, init) + (if IsLicenseLine(f, last) then 1 else 0)
      && CountCopyrightLines(f, lines) == CountCopyrightLines(f, init) + (if IsCopyrightLine(f, last) then 1 else 0)
      && Retained(f, lines) == (if IsNoticeLine(f, last) then Retained(f, init) else Retained(f, init) + [last])
  {
    var lines := init + [last];
    assert lines[..|lines| - 1] == init;
  }

  lemma JoinLinesSnoc(lines: seq<string>, last: string)
    ensures JoinLines(lines + [last]) == JoinLines(lines) + last + "\n"
  {
    assert (lines + [last])[..|lines|] == lines;
  }

  /** Once the first copyright line is behind, one more line leaves the
      start year and the kept text before it unchanged. */
  lemma AfterCopyrightSnoc(f: Format, init: seq<string>, last: string, year: U32)
    requires FirstCopyrightIndex(f, init) < |init|
    ensures var lines := init + [last];
      && FirstCopyrightIndex(f, lines) == FirstCopyrightIndex(f, init)
      && StartYear(f, lines, year) == StartYear(f, init, year)
      && lines[..FirstCopyrightIndex(f, lines)] == init[..FirstCopyrightIndex(f, init)]
  {
    FirstCopyrightIndexSnoc(f, init, last);
    var k := FirstCopyrightIndex(f, init);
    assert (init + [last])[k] == init[k];
  }

  /** Before any copyright line, one more line that is the first copyright
      line fixes the start year and the kept text before it. */
  lemma FirstCopyrightSnoc(f: Format, init: seq<string>, last: string, year: U32)
    requires FirstCopyrightIndex(f, init) == |init|
    requires IsCopyrightLine(f, last)
    ensures var lines := init + [last];
      && FirstCopyrightIndex(f, lines) == |init|
      && StartYear(f, lines, year) == ParseCopyrightInfo(last[|CopyrightPrefix(f)|..]).yearStart
      && lines[..FirstCopyrightIndex(f, lines)] == init
  {
    FirstCopyrightIndexSnoc(f, init, last);
    assert (init + [last])[..|init|] == init;
  }

  /** Before any copyright line, one more line that is not one leaves the file without one. */
  lemma NoCopyrightSnoc(f: Format, init: seq<string>, last: string)
    requires FirstCopyrightIndex(f, init) == |init|
    requires !IsCopyrightLine(f, last)
    ensures FirstCopyrightIndex(f, init + [last]) == |init| + 1
  {
    FirstCopyrightIndexSnoc(f, init, last);
  }

  /** One turn of the loop keeps the invariant. */
  lemma FixLineStep(f: Format, holder: string, license: string, year: U32, init: seq<string>, last: string, st: FixState)
    requires CountLicenseLines(f, init) <= 1 && CountCopyrightLines(f, init) <= 1
    requires FixInvariant(f, init, holder, license, year, st)
    ensures var lines := init + [last];
      var r := FixLine(f, holder, license, year, st, last);
      && (r.Ok? <==> CountLicenseLines(f, lines) <= 1 && CountCopyrightLines(f, lines) <= 1)
      && (r == Err(DuplicateLicense) ==> CountLicenseLines(f, lines) > 1)
      && (r == Err(DuplicateCopyright) ==> CountCopyrightLines(f, lines) > 1)
      && (r.Ok? ==> FixInvariant(f, lines, holder, license, year, r.value))
  {
    SnocFacts(f, init, last);
    PrefixesExclusive(f, last);
    CopyrightCountMeetsIndex(f, init);
    if IsLicenseLine(f, last) {
      LicenseLineStep(f, holder, license, year, init, last, st);
    } else if IsCopyrightLine(f, last) {
      CopyrightLineStep(f, holder, license, year, init, last, st);
    } else {
      KeptLineStep(f, holder, license, year, init, last, st);
    }
  }

  lemma LicenseLineStep(f: Format, holder: string, license: string, year: U32, init: seq<string>, last: string, st: FixState)
    requires CountLicenseLines(f, init) <= 1 && CountCopyrightLines(f, init) <= 1
    requires FixInvariant(f, init, holder, license, year, st)
    requires IsLicenseLine(f, last) && !IsCopyrightLine(f, last)
    requires CountLicenseLines(f, init + [last]) == CountLicenseLines(f, init) + 1
    requires CountCopyrightLines(f, init + [last]) == CountCopyrightLines(f, init)
    requires Retained(f, init + [last]) == Retained(f, init)
    ensures var r := FixLine(f, holder, license, year, st, last);
      && (r.Ok? <==> CountLicenseLines(f, init + [last]) <= 1)
      && (r.Err? ==> r.error == DuplicateLicense)
      && (r.Ok? ==> FixInvariant(f, init + [last], holder, license, year, r.value))
  {
    var lines := init + [last];
    if FirstCopyrightIndex(f, init) < |init| {
      AfterCopyrightSnoc(f, init, last, year);
    } else {
      NoCopyrightSnoc(f, init, last);
    }
  }

  lemma CopyrightLineStep(f: Format, holder: string, license: string, year: U32, init: seq<string>, last: string, st: FixState)
    requires CountLicenseLines(f, init) <= 1 && CountCopyrightLines(f, init) <= 1
    requires FixInvariant(f, init, holder, license, year, st)
    requires st.foundCopyright <==> CountCopyrightLines(f, init) > 0
    requires IsCopyrightLine(f, last) && !IsLicenseLine(f, last)
    requires CountLicenseLines(f, init + [last]) == CountLicenseLines(f, init)
    requires CountCopyrightLines(f, init + [last]) == CountCopyrightLines(f, init) + 1
    requires Retained(f, init + [last]) == Retained(f, init)
    ensures var r := FixLine(f, holder, license, year, st, last);
      && (r.Ok? <==> CountCopyrightLines(f, init + [last]) <= 1)
      && (r.Err? ==> r.error == DuplicateCopyright)
      && (r.Ok? ==> FixInvariant(f, init + [last], holder, license, year, r.value))
  {
    assert StripLicenseLine(f, last).None?;
    if !st.foundCopyright {
      var lines := init + [last];
      FirstCopyrightSnoc(f, init, last, year);
      assert init[..|init|] == init;
      var info := StripCopyrightLine(f, last).value;
      assert info == last[|CopyrightPrefix(f)|..];
      var notice := RenderNotice(f, ParseCopyrightInfo(info).yearStart, holder, license, year);
      assert notice == RenderNotice(f, StartYear(f, lines, year), holder, license, year);
      var r := FixLine(f, holder, license, year, st, last);
      assert st.buf1 + notice == notice;
    }
  }

  lemma KeptLineStep(f: Format, holder: string, license: string, year: U32, init: seq<string>, last: string, st: FixState)
    requires FixInvariant(f, init, holder, license, year, st)
    requires !IsNoticeLine(f, last)
    requires Retained(f, init + [last]) == Retained(f, init) + [last]
    requires CountLicenseLines(f, init + [last]) == CountLicenseLines(f, init)
    ensures var r := FixLine(f, holder, license, year, st, last);
      r.Ok? && FixInvariant(f, init + [last], holder, license, year, r.value)
  {
    var lines := init + [last];
    assert StripLicenseLine(f, last).None? && StripCopyrightLine(f, last).None?;
    JoinLinesSnoc(Retained(f, init), last);
    var joined := JoinLines(Retained(f, lines));
    assert joined == JoinLines(Retained(f, init)) + last + "\n";
    if FirstCopyrightIndex(f, init) < |init| {
      AfterCopyrightSnoc(f, init, last, year);
      var notice := RenderNotice(f, StartYear(f, lines, year), holder, license, year);
      var sep := Separator(st.buf2);
      assert st.buf1 == notice + sep + JoinLines(Retained(f, init));
      AppendAssoc(notice + sep, JoinLines(Retained(f, init)), last);
      AppendAssoc(notice + sep, JoinLines(Retained(f, init)) + last, "\n");
      var r := FixLine(f, holder, license, year, st, last);
      assert r == Ok(st.(buf1 := st.buf1 + last + "\n"));
    } else {
      NoCopyrightSnoc(f, init, last);
      var r := FixLine(f, holder, license, year, st, last);
      assert r == Ok(st.(buf2 := st.buf2 + last + "\n"));
    }
  }

  /** Some line is a copyright line exactly when one is counted. */
  lemma {:induction false} CopyrightCountMeetsIndex(f: Format, lines: seq<string>)
    ensures CountCopyrightLines(f, lines) > 0 <==> FirstCopyrightIndex(f, lines) < |lines|
    decreases |lines|
  {
    if lines != [] {
      var init := lines[..|lines| - 1];
      assert init + [lines[|lines| - 1]] == lines;
      CopyrightCountMeetsIndex(f, init);
      FirstCopyrightIndexSnoc(f, init, lines[|lines| - 1]);
    }
  }

  /** `fix_file` on a file's lines: an error on a second license line or a
      second copyright line anywhere in the file, otherwise the text to write. */
  function FixFile(f: Format, lines: seq<string>, holder: string, license: string, year: U32): (r: Result<string, FixError>)
    ensures r.Err? <==> CountLicenseLines(f, lines) > 1 || CountCopyrightLines(f, lines) > 1
    ensures r == Err(DuplicateLicense) ==> CountLicenseLines(f, lines) > 1
    ensures r == Err(DuplicateCopyright) ==> CountCopyrightLines(f, lines) > 1
    ensures r.Ok? ==> r.value == FixedText(f, lines, holder, license, year)
  {
    match FixLines(f, holder, license, year, lines)
    case Err(e) => Err(e)
    case Ok(st) =>
      assert lines[..|lines|] == lines;
      var notice := RenderNotice(f, StartYear(f, lines, year), holder, license, year);
      var kept := JoinLines(Retained(f, lines));
      AppendAssoc(notice, Separator(st.buf2), kept);
      if st.buf1 == [] then
        Ok(RenderNotice(f, year, holder, license, year) + Separator(st.buf2) + st.buf2)
      else Ok(st.buf1)
  }

  /** Some prefix of the file already holds a second license line while it
      still holds at most one copyright line: the license line is the first
      duplicate in line order. */
  predicate LicenseRepeatedFirst(f: Format, lines: seq<string>) {
    exists n :: 0 < n <= |lines| && CountLicenseLines(f, lines[..n]) > 1 && CountCopyrightLines(f, lines[..n]) <= 1
  }

  /** Some prefix of the file already holds a second copyright line while it
      still holds at most one license line: the copyright line is the first
      duplicate in line order. */
  predicate CopyrightRepeatedFirst(f: Format, lines: seq<string>) {
    exists n :: 0 < n <= |lines| && CountCopyrightLines(f, lines[..n]) > 1 && CountLicenseLines(f, lines[..n]) <= 1
  }

  /** A prefix of `init + [last]` is a prefix of `init` or the whole. */
  lemma LicenseRepeatedFirstSnoc(f: Format, init: seq<string>, last: string)
    ensures var lines := init + [last];
      LicenseRepeatedFirst(f, lines) <==>
        LicenseRepeatedFirst(f, init) || (CountLicenseLines(f, lines) > 1 && CountCopyrightLines(f, lines) <= 1)
  {
    var lines := init + [last];
    if LicenseRepeatedFirst(f, lines) {
      var n :| 0 < n <= |lines| && CountLicenseLines(f, lines[..n]) > 1 && CountCopyrightLines(f, lines[..n]) <= 1;
      if n <= |init| {
        assert lines[..n] == init[..n];
      } else {
        assert lines[..n] == lines;
      }
    }
    if LicenseRepeatedFirst(f, init) {
      var n :| 0 < n <= |init| && CountLicenseLines(f, init[..n]) > 1 && CountCopyrightLines(f, init[..n]) <= 1;
      assert lines[..n] == init[..n];
    }
    assert lines[..|lines|] == lines;
  }

  /** A prefix of `init + [last]` is a prefix of `init` or the whole. */
  lemma CopyrightRepeatedFirstSnoc(f: Format, init: seq<string>, last: string)
    ensures var lines := init + [last];
      CopyrightRepeatedFirst(f, lines) <==>
        CopyrightRepeatedFirst(f, init) || (CountCopyrightLines(f, lines) > 1 && CountLicenseLines(f, lines) <= 1)
  {
    var lines := init + [last];
    if CopyrightRepeatedFirst(f, lines) {
      var n :| 0 < n <= |lines| && CountCopyrightLines(f, lines[..n]) > 1 && CountLicenseLines(f, lines[..n]) <= 1;
      if n <= |init| {
        assert lines[..n] == init[..n];
      } else {
        assert lines[..n] == lines;
      }
    }
    if CopyrightRepeatedFirst(f, init) {
      var n :| 0 < n <= |init| && CountCopyrightLines(f, init[..n]) > 1 && CountLicenseLines(f, init[..n]) <= 1;
      assert lines[..n] == init[..n];
    }
    assert lines[..|lines|] == lines;
  }

  /** `fix_file` names the duplicate it meets first in line order: the
      license error exactly when a second license line comes before any
      second copyright line, and the copyright error the other way round. */
  lemma {:induction false} FixLinesNamesFirstDuplicate(f: Format, holder: string, license: string, year: U32, lines: seq<string>)
    ensures FixLines(f, holder, license, year, lines) == Err(DuplicateLicense) <==> LicenseRepeatedFirst(f, lines)
    ensures FixLines(f, holder, license, year, lines) == Err(DuplicateCopyright) <==> CopyrightRepeatedFirst(f, lines)
    decreases |lines|
  {
    if lines != [] {
      var init := lines[..|lines| - 1];
      var last := lines[|lines| - 1];
      assert init + [last] == lines;
      FixLinesNamesFirstDuplicate(f, holder, license, year, init);
      match FixLines(f, holder, license, year, init)
      case Err(e) =>
        if e == DuplicateLicense {
          assert LicenseRepeatedFirst(f, init) && CountLicenseLines(f, init) > 1;
        } else {
          assert CopyrightRepeatedFirst(f, init) && CountCopyrightLines(f, init) > 1;
        }
        DuplicateStaysFirst(f, init, last);
        assert FixLines(f, holder, license, year, lines) == Err(e);
      case Ok(st) =>
        LicenseRepeatedFirstSnoc(f, init, last);
        CopyrightRepeatedFirstSnoc(f, init, last);
        FixLineNamesDuplicate(f, holder, license, year, init, last, st);
        assert FixLines(f, holder, license, year, lines) == FixLine(f, holder, license, year, st, last);
    }
  }

  /** `fix_file` reports the duplicate that comes first in line order. */
  lemma FixFileNamesFirstDuplicate(f: Format, lines: seq<string>, holder: string, license: string, year: U32)
    ensures FixFile(f, lines, holder, license, year) == Err(DuplicateLicense) <==> LicenseRepeatedFirst(f, lines)
    ensures FixFile(f, lines, holder, license, year) == Err(DuplicateCopyright) <==> CopyrightRepeatedFirst(f, lines)
  {
    FixLinesNamesFirstDuplicate(f, holder, license, year, lines);
  }

  /** Once one kind is the first duplicate, further lines do not change that. */
  lemma DuplicateStaysFirst(f: Format, init: seq<string>, last: string)
    requires LicenseRepeatedFirst(f, init) != CopyrightRepeatedFirst(f, init)
    requires LicenseRepeatedFirst(f, init) ==> CountLicenseLines(f, init) > 1
    requires CopyrightRepeatedFirst(f, init) ==> CountCopyrightLines(f, init) > 1
    ensures LicenseRepeatedFirst(f, init + [last]) == LicenseRepeatedFirst(f, init)
    ensures CopyrightRepeatedFirst(f, init + [last]) == CopyrightRepeatedFirst(f, init)
  {
    LicenseRepeatedFirstSnoc(f, init, last);
    CopyrightRepeatedFirstSnoc(f, init, last);
    SnocFacts(f, init, last);
  }

  /** On a file free of duplicates so far, the next line is rejected for the
      kind whose count it takes past one. */
  lemma FixLineNamesDuplicate(f: Format, holder: string, license: string, year: U32, init: seq<string>, last: string, st: FixState)
    requires CountLicenseLines(f, init) <= 1 && CountCopyrightLines(f, init) <= 1
    requires FixInvariant(f, init, holder, license, year, st)
    ensures var lines := init + [last];
      var r := FixLine(f, holder, license, year, st, last);
      && (r == Err(DuplicateLicense) <==> CountLicenseLines(f, lines) > 1 && CountCopyrightLines(f, lines) <= 1)
      && (r == Err(DuplicateCopyright) <==> CountCopyrightLines(f, lines) > 1 && CountLicenseLines(f, lines) <= 1)
  {
    SnocFacts(f, init, last);
    PrefixesExclusive(f, last);
    CopyrightCountMeetsIndex(f, init);
  }

  /** A fixed file passes the check exactly when its start year does not
      lie beyond the current year. */
  lemma FixedFileChecks(f: Format, lines: seq<string>, holder: string, license: string, year: U32)
    requires LineSafe(holder) && LineSafe(license)
    requires FixFile(f, lines, holder, license, year).Ok?
    ensures CheckFile(f, Lines(FixFile(f, lines, holder, license, year).value), holder, license, year).Ok?
      <==> StartYear(f, lines, year) <= year
  {
    CheckRenderedNotice(f, StartYear(f, lines, year), holder, license, year, KeptText(f, lines));
  }

  /** On lines without line feeds, the separator is left out exactly when
      the first kept line is empty. */
  lemma SeparatorOmittedForBlankLine(kept: seq<string>)
    requires forall i :: 0 <= i < |kept| ==> '\n' !in kept[i]
    ensures Separator(JoinLines(kept)) == "" <==> |kept| > 0 && kept[0] == ""
  {
    if kept != [] {
      var first := kept[0];
      JoinLinesCons(first, kept[1..]);
      assert kept == [first] + kept[1..];
      var joined := JoinLines(kept);
      assert joined == first + "\n" + JoinLines(kept[1..]);
      if first == "" {
        assert joined[0] == '\n';
      } else {
        assert joined[0] == first[0];
        assert first[0] != '\n';
      }
    }
  }

  /** An empty file is fixed to the notice for the current year and a blank line. */
  lemma FixEmptyFile(f: Format, holder: string, license: string, year: U32)
    ensures FixFile(f, [], holder, license, year) == Ok(RenderNotice(f, year, holder, license, year) + "\n")
  {
    var none: seq<string> := [];
    assert none[..0] == none;
    assert KeptText(f, none) == "\n";
  }

  lemma CountsConcat(f: Format, a: seq<string>, b: seq<string>)
    ensures CountLicenseLines(f, a + b) == CountLicenseLines(f, a) + CountLicenseLines(f, b)
    ensures CountCopyrightLines(f, a + b) == CountCopyrightLines(f, a) + CountCopyrightLines(f, b)
    ensures Retained(f, a + b) == Retained(f, a) + Retained(f, b)
  {
    LineCountsConcat(f, a, b);
    RetainedConcat(f, a, b);
  }

  lemma {:induction false} LineCountsConcat(f: Format, a: seq<string>, b: seq<string>)
    ensures CountLicenseLines(f, a + b) == CountLicenseLines(f, a) + CountLicenseLines(f, b)
    ensures CountCopyrightLines(f, a + b) == CountCopyrightLines(f, a) + CountCopyrightLines(f, b)
    decreases |b|
  {
    if b == [] {
      assert a + b == a;
    } else {
      var init := b[..|b| - 1];
      assert (a + b)[..|a + b| - 1] == a + init;
      assert (a + b)[|a + b| - 1] == b[|b| - 1];
      LineCountsConcat(f, a, init);
    }
  }

  lemma {:induction false} RetainedConcat(f: Format, a: seq<string>, b: seq<string>)
    ensures Retained(f, a + b) == Retained(f, a) + Retained(f, b)
    decreases |b|
  {
    if b == [] {
      assert a + b == a;
    } else {
      var init := b[..|b| - 1];
      var last := b[|b| - 1];
      assert (a + b)[..|a + b| - 1] == a + init;
      assert (a + b)[|a + b| - 1] == last;
      RetainedConcat(f, a, init);
      if !IsNoticeLine(f, last) {
        assert Retained(f, a) + Retained(f, init) + [last] == Retained(f, a) + (Retained(f, init) + [last]);
      }
    }
  }

  lemma {:induction false} KeptLinesCountNothing(f: Format, kept: seq<string>)
    requires forall i :: 0 <= i < |kept| ==> !IsNoticeLine(f, kept[i])
    ensures CountLicenseLines(f, kept) == 0 && CountCopyrightLines(f, kept) == 0
    ensures Retained(f, kept) == kept
    decreases |kept|
  {
    if kept != [] {
      var init := kept[..|kept| - 1];
      assert !IsNoticeLine(f, kept[|kept| - 1]);
      assert forall i :: 0 <= i < |init| ==> init[i] == kept[i];
      KeptLinesCountNothing(f, init);
      RetainedSnocKept(f, init, kept);
    }
  }

  /** One more kept line is retained after the others. */
  lemma RetainedSnocKept(f: Format, init: seq<string>, kept: seq<string>)
    requires kept != [] && init == kept[..|kept| - 1]
    requires !IsNoticeLine(f, kept[|kept| - 1]) && Retained(f, init) == init
    ensures Retained(f, kept) == kept
  {
    var last := kept[|kept| - 1];
    assert Retained(f, kept) == init + [last];
    assert init + [last] == kept;
  }


  /** Running `fix_file` again on its own output is never a no-op: the
      second run finds the notice, keeps everything after it, and puts one
      more blank line between the two. */
  lemma FixTwiceAddsBlankLine(f: Format, lines: seq<string>, holder: string, license: string, year: U32)
    requires LineSafe(holder) && LineSafe(license)
    requires forall i :: 0 <= i < |lines| ==> LineSafe(lines[i])
    requires FixFile(f, lines, holder, license, year).Ok?
    ensures var once := FixFile(f, lines, holder, license, year).value;
      var notice := RenderNotice(f, StartYear(f, lines, year), holder, license, year);
      && notice <= once
      && FixFile(f, Lines(once), holder, license, year) == Ok(notice + "\n" + once[|notice|..])
      && FixFile(f, Lines(once), holder, license, year) != Ok(once)
  {
    var once := FixFile(f, lines, holder, license, year).value;
    var yearStart := StartYear(f, lines, year);
    var notice := RenderNotice(f, yearStart, holder, license, year);
    var kept := KeptText(f, lines);
    var tail := KeptLines(f, lines);
    assert once == notice + kept;
    KeptTextIsJoin(f, lines);
    TailIsKept(f, lines, tail);
    LinesJoinLines(tail);
    LinesOfNotice(f, yearStart, holder, license, year, kept);
    RefixNotice(f, yearStart, holder, license, year, tail);
    assert once[|notice|..] == kept;
    AppendAssoc(notice, "\n", kept);
    assert |notice + "\n" + kept| == |once| + 1;
  }

  /** The kept lines of a fixed file, the blank separator line included. */
  function KeptLines(f: Format, lines: seq<string>): seq<string> {
    var before := Retained(f, lines[..FirstCopyrightIndex(f, lines)]);
    if Separator(JoinLines(before)) == "" then Retained(f, lines) else [""] + Retained(f, lines)
  }

  lemma KeptTextIsJoin(f: Format, lines: seq<string>)
    ensures KeptText(f, lines) == JoinLines(KeptLines(f, lines))
  {
    var before := Retained(f, lines[..FirstCopyrightIndex(f, lines)]);
    SeparatorJoin(JoinLines(before), Retained(f, lines));
  }

  /** The separator is an empty first line. */
  lemma SeparatorJoin(before: string, kept: seq<string>)
    ensures Separator(before) + JoinLines(kept) ==
      JoinLines(if Separator(before) == "" then kept else [""] + kept)
  {
    if Separator(before) != "" {
      JoinLinesCons("", kept);
      assert "" + "\n" + JoinLines(kept) == "\n" + JoinLines(kept);
    }
  }


  lemma TailIsKept(f: Format, lines: seq<string>, tail: seq<string>)
    requires forall i :: 0 <= i < |lines| ==> LineSafe(lines[i])
    requires tail == KeptLines(f, lines)
    ensures forall i :: 0 <= i < |tail| ==> LineSafe(tail[i]) && !IsNoticeLine(f, tail[i])
  {
    forall i | 0 <= i < |tail|
      ensures LineSafe(tail[i]) && !IsNoticeLine(f, tail[i])
    {
      if tail[i] != "" {
        assert tail[i] in Retained(f, lines);
      }
    }
  }

  /** A file that starts with a license line and a copyright line and goes
      on with kept lines has one of each, its first copyright line second,
      and all the rest kept with no blank line before it. */
  lemma NoticeThenKept(f: Format, licenseLine: string, copyrightLine: string, tail: seq<string>, year: U32)
    requires IsLicenseLine(f, licenseLine) && IsCopyrightLine(f, copyrightLine)
    requires forall i :: 0 <= i < |tail| ==> !IsNoticeLine(f, tail[i])
    ensures var again := [licenseLine, copyrightLine] + tail;
      && CountLicenseLines(f, again) == 1
      && CountCopyrightLines(f, again) == 1
      && StartYear(f, again, year) == ParseCopyrightInfo(copyrightLine[|CopyrightPrefix(f)|..]).yearStart
      && KeptText(f, again) == "\n" + JoinLines(tail)
  {
    PrefixesExclusive(f, licenseLine);
    PrefixesExclusive(f, copyrightLine);
    NoticeHeadFacts(f, licenseLine, copyrightLine);
    var head := [licenseLine, copyrightLine];
    CountsConcat(f, head, tail);
    KeptLinesCountNothing(f, tail);
    CopyrightSecond(f, licenseLine, copyrightLine, tail, year);
  }

  lemma NoticeHeadFacts(f: Format, licenseLine: string, copyrightLine: string)
    requires IsLicenseLine(f, licenseLine) && !IsCopyrightLine(f, licenseLine)
    requires IsCopyrightLine(f, copyrightLine) && !IsLicenseLine(f, copyrightLine)
    ensures CountLicenseLines(f, [licenseLine, copyrightLine]) == 1
    ensures CountCopyrightLines(f, [licenseLine, copyrightLine]) == 1
    ensures Retained(f, [licenseLine, copyrightLine]) == []
    ensures Retained(f, [licenseLine]) == []
  {
    var none: seq<string> := [];
    SnocFacts(f, none, licenseLine);
    assert none + [licenseLine] == [licenseLine];
    SnocFacts(f, [licenseLine], copyrightLine);
    assert [licenseLine] + [copyrightLine] == [licenseLine, copyrightLine];
  }

  lemma CopyrightSecond(f: Format, licenseLine: string, copyrightLine: string, tail: seq<string>, year: U32)
    requires !IsCopyrightLine(f, licenseLine) && IsCopyrightLine(f, copyrightLine)
    requires Retained(f, [licenseLine]) == []
    requires Retained(f, [licenseLine, copyrightLine] + tail) == tail
    ensures var again := [licenseLine, copyrightLine] + tail;
      && StartYear(f, again, year) == ParseCopyrightInfo(copyrightLine[|CopyrightPrefix(f)|..]).yearStart
      && KeptText(f, again) == "\n" + JoinLines(tail)
  {
    var again := [licenseLine, copyrightLine] + tail;
    assert again[0] == licenseLine && again[1] == copyrightLine;
    assert FirstCopyrightIndex(f, again) == 1;
    assert again[..1] == [licenseLine];
  }

  /** Fixing a file that starts with a rendered notice and goes on with kept
      lines renders the same notice, a blank line, and those lines. */
  lemma RefixNotice(f: Format, yearStart: U32, holder: string, license: string, year: U32, tail: seq<string>)
    requires LineSafe(holder) && LineSafe(license)
    requires forall i :: 0 <= i < |tail| ==> !IsNoticeLine(f, tail[i])
    ensures var again := [LicenseLine(f, license), CopyrightLine(f, RenderedInfo(yearStart, holder, year))] + tail;
      FixFile(f, again, holder, license, year)
      == Ok(RenderNotice(f, yearStart, holder, license, year) + ("\n" + JoinLines(tail)))
  {
    var info := RenderedInfo(yearStart, holder, year);
    var copyrightLine := CopyrightLine(f, info);
    assert copyrightLine[|CopyrightPrefix(f)|..] == info;
    NoticeThenKept(f, LicenseLine(f, license), copyrightLine, tail, year);
    ParseRenderedInfo(yearStart, holder, year);
  }
}
