/** `organizer.py`: the extraction location proposed for a dated file,
    `{base_dir}/{YYYY}/{MM}/{file name}`. */
module Organizer {
  import opened Base
  import opened Text
  import opened Paths
  import opened Scanner

  /** The default `base_dir`. */
  const DefaultBase: string := "extracted"

  /** The default base directory is a single path component. */
  lemma DefaultBaseIsPart()
    ensures IsPart(DefaultBase)
  {
    assert forall i :: 0 <= i < |DefaultBase| ==> DefaultBase[i] != '/';
  }

  /** The range Python's `datetime` guarantees for its year and month. */
  predicate ValidDate(d: DateTime)
  {
    1 <= d.year <= 9999 && 1 <= d.month <= 12
  }

  /** A non-empty run of digits is a path component. */
  lemma DigitsArePart(s: string)
    requires |s| >= 1 && AllDigits(s)
    ensures IsPart(s)
  {
    assert IsDigit(s[0]);
    assert s != ".";
    assert forall i :: 0 <= i < |s| ==> s[i] != '/';
  }

  /** `strftime("%Y")`: the year in decimal. */
  function YearText(d: DateTime): (s: string)
    requires ValidDate(d)
    ensures IsPart(s)
  {
    DigitsArePart(Dec(d.year));
    Dec(d.year)
  }

  /** `strftime("%m")`: the month as two digits. */
  function MonthText(d: DateTime): (s: string)
    requires ValidDate(d)
    ensures |s| == 2 && AllDigits(s) && IsPart(s)
  {
    DigitsArePart(Pad2(d.month));
    Pad2(d.month)
  }

  /** `Path(file_info.file_path).name`, as the components it contributes to a join. */
  function NamePart(f: ZipFileInfo): (r: seq<string>)
    ensures |r| <= 1 && forall i :: 0 <= i < |r| ==> IsPart(r[i])
  {
    var name := Name(Parse(f.filePath));
    if name == "" then [] else [name]
  }

  /** `Path(base_dir) / year / month / filename`: the base directory's
      components followed by the year, the month and the file's own name. */
  lemma ProposedParts(f: ZipFileInfo, d: DateTime, baseDir: string)
    requires ValidDate(d)
    ensures var b := Parse(baseDir);
      Div(Div(Div(b, YearText(d)), MonthText(d)), Name(Parse(f.filePath)))
        == PurePath(b.absolute, b.parts + [YearText(d), MonthText(d)] + NamePart(f))
  {
    ParsePart(YearText(d));
    ParsePart(MonthText(d));
    var name := Name(Parse(f.filePath));
    if name != "" {
      ParsePart(name);
    } else {
      assert Parse(name) == PurePath(false, []);
    }
  }

  /** `propose_location`. Parsed back, the proposal is the base directory's
      components followed by the year, the month and the file's own name. */
  function ProposeLocation(f: ZipFileInfo, d: DateTime, baseDir: string): (r: string)
    requires ValidDate(d)
    ensures var b := Parse(baseDir);
      Parse(r) == PurePath(b.absolute, b.parts + [YearText(d), MonthText(d)] + NamePart(f))
  {
    var p := Div(Div(Div(Parse(baseDir), YearText(d)), MonthText(d)), Name(Parse(f.filePath)));
    ProposedParts(f, d, baseDir);
    ParseStr(p);
    Str(p)
  }

  /** Four components joined with '/'. */
  lemma JoinFour(a: string, b: string, c: string, e: string)
    ensures JoinParts([a, b, c, e]) == a + "/" + b + "/" + c + "/" + e
  {
    assert [a, b, c, e][1..] == [b, c, e];
    assert [b, c, e][1..] == [c, e];
    assert [c, e][1..] == [e];
    var ce := c + "/" + e;
    assert JoinParts([c, e]) == ce;
    var bce := b + "/" + ce;
    assert JoinParts([b, c, e]) == bce;
    assert bce == b + "/" + c + "/" + e;
    assert a + "/" + bce == a + "/" + b + "/" + c + "/" + e;
  }

  /** With a one-component base such as the default, the proposal is spelled
      `base/YYYY/MM/name`. */
  lemma ProposeLocationText(f: ZipFileInfo, d: DateTime, baseDir: string)
    requires ValidDate(d) && IsPart(baseDir) && NamePart(f) != []
    ensures ProposeLocation(f, d, baseDir)
         == baseDir + "/" + YearText(d) + "/" + MonthText(d) + "/" + Name(Parse(f.filePath))
  {
    ParsePart(baseDir);
    ProposedParts(f, d, baseDir);
    var name := Name(Parse(f.filePath));
    var parts := [baseDir, YearText(d), MonthText(d), name];
    assert Parse(baseDir).parts + [YearText(d), MonthText(d)] + NamePart(f) == parts;
    JoinFour(baseDir, YearText(d), MonthText(d), name);
  }
}
