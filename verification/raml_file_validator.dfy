/** `RamlFileValidator`: the checks a file passes before it is parsed. The
    file system is an input: a file is its name, the answers to `exists`,
    `isFile` and `canRead`, and either its text or the message of the read
    error. */
module RamlFileValidator {
  import opened Wrappers
  import opened Strings

  const SUPPORTED_VERSION := "1.0"
  const HEADER_MARK := "#%RAML"

  datatype FileInfo = FileInfo(name: string, present: bool, isFile: bool, canRead: bool, text: Result<string, string>)

  // ---------------------------------------------------------------------
  // First line

  predicate IsLineBreak(c: char) {
    c == '\n' || c == '\r'
  }

  /** Length of the text before the first line break. */
  function LineLength(s: string): (k: nat)
    ensures k <= |s|
    ensures forall i :: 0 <= i < k ==> !IsLineBreak(s[i])
    ensures k < |s| ==> IsLineBreak(s[k])
    decreases |s|
  {
    if |s| == 0 || IsLineBreak(s[0]) then 0 else 1 + LineLength(s[1..])
  }

  /** `readLine` on a fresh reader: nothing for an empty text, otherwise the
      text up to the first `\n` or `\r`. */
  function FirstLine(text: string): (r: Option<string>)
    ensures r.None? <==> text == []
    ensures r.Some? ==> StartsWith(text, r.value) && forall i :: 0 <= i < |r.value| ==> !IsLineBreak(r.value[i])
    ensures r.Some? && |r.value| < |text| ==> IsLineBreak(text[|r.value|])
  {
    if text == [] then None else Some(text[..LineLength(text)])
  }

  /** A line followed by a line break is read back as it is. */
  lemma {:induction false} FirstLineOf(line: string, brk: char, rest: string)
    requires IsLineBreak(brk)
    requires forall i :: 0 <= i < |line| ==> !IsLineBreak(line[i])
    ensures FirstLine(line + [brk] + rest) == Some(line)
  {
    var t := line + [brk] + rest;
    LineLengthBefore(line, [brk] + rest);
    assert t == line + ([brk] + rest);
    assert t[..|line|] == line;
  }

  lemma {:induction false} LineLengthBefore(a: string, b: string)
    requires forall i :: 0 <= i < |a| ==> !IsLineBreak(a[i])
    requires |b| > 0 && IsLineBreak(b[0])
    ensures LineLength(a + b) == |a|
    decreases |a|
  {
    if |a| > 0 {
      assert (a + b)[1..] == a[1..] + b;
      LineLengthBefore(a[1..], b);
    } else {
      assert a + b == b;
    }
  }

  // ---------------------------------------------------------------------
  // Header line

  predicate AllSpace(s: string) {
    forall i :: 0 <= i < |s| ==> IsSpace(s[i])
  }

  predicate IsVersionText(v: string) {
    v == "0.8" || v == "1.0"
  }

  /** `^#%RAML\s+(0\.8|1\.0)\s*$`, matched against the whole line: the
      mark, a run of `\s`, a version, optional `\s`. */
  ghost predicate HeaderShape(line: string) {
    exists ws: string, v: string, tail: string ::
      |ws| > 0 && AllSpace(ws) && IsVersionText(v) && AllSpace(tail) && line == HEADER_MARK + ws + v + tail
  }

  /** The header pattern as a scan: the version the line declares when it
      matches, nothing otherwise. */
  function MatchHeader(line: string): (r: Option<string>)
    ensures r.Some? ==> IsVersionText(r.value)
  {
    if !StartsWith(line, HEADER_MARK) then None
    else
      var rest := line[|HEADER_MARK|..];
      var k := SpaceLength(rest);
      var after := rest[k..];
      if k == 0 || |after| < 3 || !IsVersionText(after[..3]) || !AllSpace(after[3..]) then None
      else Some(after[..3])
  }

  /** The scan accepts exactly the lines of the pattern, and reports the
      version they declare. */
  lemma MatchHeaderSound(line: string)
    requires MatchHeader(line).Some?
    ensures HeaderShape(line)
  {
    var rest := line[|HEADER_MARK|..];
    var k := SpaceLength(rest);
    var after := rest[k..];
    var ws := rest[..k];
    var v := after[..3];
    var tail := after[3..];
    assert line == HEADER_MARK + ws + v + tail;
  }

  lemma MatchHeaderComplete(ws: string, v: string, tail: string)
    requires |ws| > 0 && AllSpace(ws) && IsVersionText(v) && AllSpace(tail)
    ensures MatchHeader(HEADER_MARK + ws + v + tail) == Some(v)
  {
    var line := HEADER_MARK + ws + v + tail;
    assert line[..|HEADER_MARK|] == HEADER_MARK;
    var rest := line[|HEADER_MARK|..];
    assert rest == ws + (v + tail);
    SpaceLengthBefore(ws, v + tail);
    assert rest[|ws|..] == v + tail;
    assert (v + tail)[..3] == v;
    assert (v + tail)[3..] == tail;
  }

  lemma {:induction false} SpaceLengthBefore(a: string, b: string)
    requires AllSpace(a)
    requires |b| > 0 && !IsSpace(b[0])
    ensures SpaceLength(a + b) == |a|
    decreases |a|
  {
    if |a| > 0 {
      assert (a + b)[1..] == a[1..] + b;
      SpaceLengthBefore(a[1..], b);
    } else {
      assert a + b == b;
    }
  }

  /** `extractVersion`: the second word of the line, or nothing when there
      is none. */
  function ExtractVersion(line: string): (r: string)
    ensures forall i :: 0 <= i < |r| ==> !IsSpace(r[i])
  {
    var parts := SplitOnSpaces(line);
    if |parts| >= 2 then parts[1] else ""
  }

  /** On a trimmed line that matches the pattern, the second word is the
      version the pattern read. */
  lemma ExtractVersionOfHeader(raw: string)
    requires MatchHeader(Trim(raw)).Some?
    ensures ExtractVersion(Trim(raw)) == MatchHeader(Trim(raw)).value
  {
    var line := Trim(raw);
    var v := MatchHeader(line).value;
    var ws := HeaderSplit(line);
    HeaderWordsSolid(v);
    SplitAroundSpaces(HEADER_MARK, ws, v);
    assert SplitOnSpaces(line) == [HEADER_MARK, v];
  }

  lemma HeaderWordsSolid(v: string)
    requires IsVersionText(v)
    ensures IsSolid(HEADER_MARK) && IsSolid(v)
  {
  }

  /** A matching line that ends in a non-blank character is the mark, the
      white space after it, and the version, with nothing after. */
  lemma HeaderSplit(line: string) returns (ws: string)
    requires MatchHeader(line).Some? && !IsBlankChar(line[|line| - 1])
    ensures |ws| > 0 && AllSpace(ws) && line == HEADER_MARK + ws + MatchHeader(line).value
  {
    var rest := line[|HEADER_MARK|..];
    var k := SpaceLength(rest);
    var after := rest[k..];
    ws := rest[..k];
    var tail := after[3..];
    assert tail == [];
    assert line == HEADER_MARK + ws + after[..3];
  }

  /** Two words around a run of `\s` split into exactly those two words. */
  lemma SplitAroundSpaces(a: string, ws: string, b: string)
    requires IsSolid(a) && IsSolid(b) && |ws| > 0 && AllSpace(ws)
    ensures SplitOnSpaces(a + ws + b) == [a, b]
  {
    var s := a + ws + b;
    assert IsSpace(s[|a|]);
    WordLengthBefore(a, ws + b);
    assert s == a + (ws + b);
    var rest := s[|a|..];
    assert rest == ws + b;
    SpaceLengthBefore(ws, b);
    assert rest[|ws|..] == b;
    WordLengthBefore(b, []);
    assert b + [] == b;
    assert SplitRuns(b) == [b];
    assert SplitRuns(s) == [a, b];
  }

  // ---------------------------------------------------------------------
  // Checks

  /** `hasRamlExtension`: the name ends in `.raml`, in any case. */
  predicate HasRamlExtension(name: string) {
    EndsWithIgnoreCase(name, ".raml")
  }

  /** The report of a header that declares an unsupported version. */
  function UnsupportedMessage(name: string, version: string): string {
    "Unsupported RAML version in file '" + name + "'\n  Found: RAML " + version + "\n  Supported: RAML 1.0 only"
  }

  /** `validateRamlHeader`: a read error, an empty file, a first line that
      does not match the header pattern once trimmed, and a version other
      than 1.0 are each reported. */
  function ValidateHeader(f: FileInfo): (r: Outcome<()>)
    ensures r.Ok? <==>
      && f.text.Ok?
      && FirstLine(f.text.value).Some?
      && MatchHeader(Trim(FirstLine(f.text.value).value)) == Some(SUPPORTED_VERSION)
    ensures r.Err? ==> r.error.ConverterException?
    ensures f.text.Ok? && f.text.value == [] ==> r == Err(ConverterException("File '" + f.name + "' is empty"))
  {
    match f.text
    case Err(msg) => Err(ConverterException("Error reading file '" + f.name + "': " + msg))
    case Ok(text) =>
      match FirstLine(text)
      case None => Err(ConverterException("File '" + f.name + "' is empty"))
      case Some(raw) =>
        var line := Trim(raw);
        if MatchHeader(line).None? then
          Err(ConverterException("Invalid RAML header in file '" + f.name + "'\n  Expected: #%RAML 1.0\n  Found: " + line))
        else
          var version := ExtractVersion(line);
          ExtractVersionOfHeader(raw);
          if version != SUPPORTED_VERSION then
            Err(ConverterException(UnsupportedMessage(f.name, version)))
          else Ok(())
  }

  /** A first line that matches the pattern with another version than 1.0
      is reported as unsupported, naming that version. */
  lemma UnsupportedVersionReported(f: FileInfo, raw: string)
    requires f.text.Ok? && FirstLine(f.text.value) == Some(raw)
    requires MatchHeader(Trim(raw)).Some? && MatchHeader(Trim(raw)).value != SUPPORTED_VERSION
    ensures ValidateHeader(f) == Err(ConverterException(UnsupportedMessage(f.name, MatchHeader(Trim(raw)).value)))
  {
    ExtractVersionOfHeader(raw);
  }

  /** A header line with blanks between the mark and the version has no
      line break and is its own trimmed form. */
  lemma HeaderLineIsOneLine(ws: string, v: string)
    requires |ws| > 0 && forall i :: 0 <= i < |ws| ==> ws[i] == ' ' || ws[i] == '\t'
    requires IsVersionText(v)
    ensures forall i :: 0 <= i < |HEADER_MARK + ws + v| ==> !IsLineBreak((HEADER_MARK + ws + v)[i])
    ensures Trim(HEADER_MARK + ws + v) == HEADER_MARK + ws + v
    ensures AllSpace(ws)
  {
    var line := HEADER_MARK + ws + v;
    forall i | 0 <= i < |line| ensures !IsLineBreak(line[i]) {
      if i >= |HEADER_MARK| + |ws| {
        assert line[i] == v[i - |HEADER_MARK| - |ws|];
      } else if i >= |HEADER_MARK| {
        assert line[i] == ws[i - |HEADER_MARK|];
      } else {
        assert line[i] == HEADER_MARK[i];
      }
    }
    assert line[0] == '#';
    assert line[|line| - 1] == v[2];
  }

  /** A well-formed 0.8 header is rejected as an unsupported version. */
  lemma Raml08Rejected(f: FileInfo, ws: string, rest: string)
    requires |ws| > 0 && forall i :: 0 <= i < |ws| ==> ws[i] == ' ' || ws[i] == '\t'
    requires f.text == Ok(HEADER_MARK + ws + "0.8" + "\n" + rest)
    ensures ValidateHeader(f) == Err(ConverterException(UnsupportedMessage(f.name, "0.8")))
  {
    var line := HEADER_MARK + ws + "0.8";
    HeaderLineIsOneLine(ws, "0.8");
    FirstLineOf(line, '\n', rest);
    assert f.text.value == line + ['\n'] + rest;
    MatchHeaderComplete(ws, "0.8", "");
    assert line == HEADER_MARK + ws + "0.8" + "";
    UnsupportedVersionReported(f, line);
  }

  /** `validate`: the checks run in order (null, existence, regular file,
      readable, extension, header) and the first that fails is reported. */
  function Validate(file: Option<FileInfo>): (r: Outcome<()>)
    ensures r.Ok? <==>
      && file.Some?
      && file.value.present && file.value.isFile && file.value.canRead
      && HasRamlExtension(file.value.name)
      && ValidateHeader(file.value).Ok?
    ensures r.Err? ==> r.error.ConverterException?
    ensures file.None? ==> r == Err(ConverterException("File cannot be null"))
    ensures file.Some? && !file.value.present ==>
      r == Err(ConverterException("File does not exist: " + file.value.name))
    ensures file.Some? && file.value.present && !file.value.isFile ==>
      r == Err(ConverterException("Not a file: " + file.value.name))
    ensures file.Some? && file.value.present && file.value.isFile && !file.value.canRead ==>
      r == Err(ConverterException("Cannot read file (permission denied): " + file.value.name))
    ensures file.Some? && file.value.present && file.value.isFile && file.value.canRead && !HasRamlExtension(file.value.name) ==>
      r == Err(ConverterException("File '" + file.value.name + "' does not have .raml extension"))
    ensures file.Some? && file.value.present && file.value.isFile && file.value.canRead && HasRamlExtension(file.value.name) ==>
      r == ValidateHeader(file.value)
  {
    if file.None? then Err(ConverterException("File cannot be null"))
    else
      var f := file.value;
      if !f.present then Err(ConverterException("File does not exist: " + f.name))
      else if !f.isFile then Err(ConverterException("Not a file: " + f.name))
      else if !f.canRead then Err(ConverterException("Cannot read file (permission denied): " + f.name))
      else if !HasRamlExtension(f.name) then Err(ConverterException("File '" + f.name + "' does not have .raml extension"))
      else ValidateHeader(f)
  }

  /** `isRamlFile`: the quick check, which never fails: a readable regular
      file with a `.raml` name. It does not ask whether the file exists. */
  predicate IsRamlFile(file: Option<FileInfo>) {
    file.Some? && file.value.isFile && file.value.canRead && HasRamlExtension(file.value.name)
  }

  /** A file that passes validation passes the quick check. */
  lemma ValidImpliesRamlFile(file: Option<FileInfo>)
    requires Validate(file).Ok?
    ensures IsRamlFile(file)
  {
  }

  /** The quick check does not read the file: a `.raml` file with any text
      passes it, including an empty one, which validation rejects. */
  lemma QuickCheckIgnoresContent(name: string)
    requires HasRamlExtension(name)
    ensures IsRamlFile(Some(FileInfo(name, true, true, true, Ok(""))))
    ensures Validate(Some(FileInfo(name, true, true, true, Ok("")))).Err?
  {
  }
}
