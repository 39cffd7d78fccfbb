/** `OutputFileGenerator`: where a converted document is written. Files are
    their path strings; `java.io.File`'s parent and child rules are those
    of a Unix file system on normalised paths. */
module OutputFileGenerator {
  import opened Wrappers
  import opened Strings
  import opened Decimal
  import Converter

  /** `format.equalsIgnoreCase("json")`. */
  predicate IsJson(format: string) {
    EqualsIgnoreCase(format, "json")
  }

  /** The extension a format asks for: `.json` for json, `.yaml` for
      anything else. */
  function FormatExtension(format: string): (r: string)
    ensures r == ".json" || r == ".yaml"
    ensures r == ".json" <==> IsJson(format)
  {
    if IsJson(format) then ".json" else ".yaml"
  }

  /** The name without a `.raml` suffix in any case. */
  function StripRaml(name: string): (r: string)
    ensures EndsWithIgnoreCase(name, ".raml") ==> |name| >= 5 && r == name[..|name| - 5]
    ensures !EndsWithIgnoreCase(name, ".raml") ==> r == name
  {
    if EndsWithIgnoreCase(name, ".raml") then name[..|name| - 5] else name
  }

  /** `generateFileName`: the source name with its `.raml` suffix (any
      case) replaced by the format's extension, or the extension appended. */
  function GenerateFileName(sourceFileName: string, format: string): (r: string)
    ensures EndsWith(r, FormatExtension(format))
    ensures StartsWith(r, StripRaml(sourceFileName)) && |r| == |StripRaml(sourceFileName)| + 5
  {
    var stem := StripRaml(sourceFileName);
    var r := stem + FormatExtension(format);
    assert r[..|stem|] == stem;
    assert r[|r| - 5..] == FormatExtension(format);
    r
  }

  /** A RAML name, whatever the case of its extension, becomes its stem with
      the format's extension. */
  lemma GenerateFileNameOfRaml(stem: string, ext: string, format: string)
    requires |ext| == 5 && ToLower(ext) == ".raml"
    ensures GenerateFileName(stem + ext, format) == stem + FormatExtension(format)
  {
    var s := stem + ext;
    ToLowerAppend(stem, ext);
    assert ToLower(s)[|s| - 5..] == ToLower(ext);
    assert s[..|s| - 5] == stem;
  }

  /** For YAML output, the writer names a file as the converter names its
      target, except that an empty source name gives `.yaml` rather than
      `openapi.yaml`. */
  lemma GenerateFileNameAgreesWithTarget(sourceFileName: string, format: string)
    requires !IsJson(format)
    ensures sourceFileName != [] ==> GenerateFileName(sourceFileName, format) == Converter.GenerateTargetFileName(Some(sourceFileName))
    ensures sourceFileName == [] ==> GenerateFileName(sourceFileName, format) == ".yaml"
  {
    if sourceFileName == [] {
      assert !EndsWithIgnoreCase(sourceFileName, ".raml");
    }
  }

  /** The extension check of `ensureCorrectExtension`, case-insensitive. */
  predicate HasFormatExtension(path: string, format: string) {
    if IsJson(format) then EndsWithIgnoreCase(path, ".json")
    else EndsWithIgnoreCase(path, ".yaml") || EndsWithIgnoreCase(path, ".yml")
  }

  lemma EndsWithIgnoreCaseAppend(path: string, ext: string)
    requires ToLower(ext) == ext
    ensures EndsWithIgnoreCase(path + ext, ext)
  {
    ToLowerAppend(path, ext);
    assert ToLower(path + ext)[|path + ext| - |ext|..] == ToLower(ext);
  }

  /** `ensureCorrectExtension`: a path that already carries the format's
      extension (`.yml` counts for YAML) is kept; otherwise the format's
      extension is appended. Nothing is ever removed. */
  function EnsureCorrectExtension(path: string, format: string): (r: string)
    ensures StartsWith(r, path)
    ensures HasFormatExtension(r, format)
    ensures HasFormatExtension(path, format) ==> r == path
    ensures !HasFormatExtension(path, format) ==> r == path + FormatExtension(format)
  {
    if HasFormatExtension(path, format) then path
    else
      var r := path + FormatExtension(format);
      assert r[..|path|] == path;
      EndsWithIgnoreCaseAppend(path, FormatExtension(format));
      r
  }

  /** Fixing the extension twice is fixing it once. */
  lemma EnsureCorrectExtensionIdempotent(path: string, format: string)
    ensures EnsureCorrectExtension(EnsureCorrectExtension(path, format), format) == EnsureCorrectExtension(path, format)
  {
  }

  /** `getExtension`: the text from the last `.`, when that dot is not the
      first character; otherwise nothing. */
  function GetExtension(path: string): (r: string)
    ensures EndsWith(path, r)
    ensures r != [] ==> r[0] == '.' && |r| < |path| && forall i :: 1 <= i < |r| ==> r[i] != '.'
    ensures r == [] <==> forall i :: 1 <= i < |path| ==> path[i] != '.'
  {
    var k := LastIndexOf(path, '.');
    if k > 0 then
      var r := path[k..];
      assert forall i :: 1 <= i < |r| ==> r[i] == path[k + i];
      r
    else []
  }

  /** The path without its extension. */
  function BasePath(path: string): (r: string)
    ensures r + GetExtension(path) == path
  {
    var ext := GetExtension(path);
    assert path == path[..|path| - |ext|] + path[|path| - |ext|..];
    path[..|path| - |ext|]
  }

  /** The `n`-th alternative name: `base_n.ext`. */
  function Numbered(path: string, n: nat): (r: string)
    ensures StartsWith(r, BasePath(path) + "_") && EndsWith(r, GetExtension(path))
  {
    var pre := BasePath(path) + "_";
    var ext := GetExtension(path);
    var r := pre + NatToString(n) + ext;
    assert r[..|pre|] == pre;
    assert r[|r| - |ext|..] == ext;
    r
  }

  /** Between the base's `_` and the extension stands the counter's decimal text. */
  lemma NumberedMiddle(path: string, n: nat)
    ensures var r := Numbered(path, n);
      && |r| == |BasePath(path)| + 1 + |NatToString(n)| + |GetExtension(path)|
      && r[|BasePath(path)| + 1..|r| - |GetExtension(path)|] == NatToString(n)
  {
    var r := Numbered(path, n);
    assert r == BasePath(path) + "_" + NatToString(n) + GetExtension(path);
  }

  /** Different counters give different names. */
  lemma NumberedInjective(path: string, a: nat, b: nat)
    requires Numbered(path, a) == Numbered(path, b)
    ensures a == b
  {
    var pre := BasePath(path) + "_";
    var ext := GetExtension(path);
    var da := NatToString(a);
    var db := NatToString(b);
    assert |da| == |db|;
    assert da == Numbered(path, a)[|pre|..|pre| + |da|];
    assert db == Numbered(path, b)[|pre|..|pre| + |db|];
    NatToStringInjective(a, b);
  }

  /** Every alternative name before the `n`-th exists. */
  predicate TakenBelow(path: string, n: nat, existing: set<string>) {
    forall m: nat :: 1 <= m < n ==> Numbered(path, m) in existing
  }

  /** Each name in `names` is an alternative name numbered below `n`. */
  predicate NumberedBelow(path: string, n: nat, names: set<string>) {
    forall x | x in names :: exists m: nat :: 1 <= m < n && x == Numbered(path, m)
  }

  /** The `n`-th alternative name is not among those numbered below `n`. */
  lemma NextIsNew(path: string, n: nat, names: set<string>)
    requires NumberedBelow(path, n, names)
    ensures Numbered(path, n) !in names
  {
    if Numbered(path, n) in names {
      var m: nat :| 1 <= m < n && Numbered(path, n) == Numbered(path, m);
      NumberedInjective(path, m, n);
    }
  }

  /** `handleExistingFile`: a file that does not exist, or may be
      overwritten, is used as it is. Otherwise the first of `base_1.ext`,
      `base_2.ext`, ... that does not exist. `existing` is the set of paths
      that exist. */
  method HandleExistingFile(path: string, overwrite: bool, existing: set<string>) returns (r: string)
    ensures path !in existing || overwrite ==> r == path
    ensures path in existing && !overwrite ==>
      && r !in existing
      && EndsWith(r, GetExtension(path))
      && exists n: nat :: n >= 1 && r == Numbered(path, n) && TakenBelow(path, n, existing)
  {
    if path !in existing || overwrite {
      return path;
    }
    var counter: nat := 1;
    r := Numbered(path, counter);
    counter := counter + 1;
    ghost var tried: set<string> := {};
    while r in existing
      invariant counter >= 2
      invariant r == Numbered(path, counter - 1)
      invariant TakenBelow(path, counter - 1, existing)
      invariant tried <= existing
      invariant NumberedBelow(path, counter - 1, tried)
      decreases existing - tried
    {
      NextIsNew(path, counter - 1, tried);
      tried := tried + {r};
      r := Numbered(path, counter);
      counter := counter + 1;
    }
    assert r == Numbered(path, counter - 1) && TakenBelow(path, counter - 1, existing);
  }

  /** `new File(parent, child)`: an empty parent stands for the root; the
      two are joined by one `/`. */
  function Child(dir: string, name: string): (r: string)
    ensures EndsWith(r, name)
    ensures dir != [] ==> StartsWith(r, dir)
    ensures name == [] ==> r == (if dir == [] then "/" else dir)
    ensures name != [] && (dir == [] || dir == "/") ==> r == (if name[0] == '/' then name else "/" + name)
    ensures name != [] && dir != [] && dir != "/" ==> r == (if name[0] == '/' then dir + name else dir + "/" + name)
  {
    var p := if dir == [] then "/" else dir;
    var r :=
      if name == [] then p
      else if name[0] == '/' then (if p == "/" then name else p + name)
      else if p == "/" then p + name
      else p + "/" + name;
    assert name != [] ==> r[|r| - |name|..] == name;
    assert r[..|p|] == p;
    r
  }

  /** `getParent`: the path before the last `/`, the root for a path
      directly under it, nothing for a path without a directory part. */
  function Parent(path: string): (r: Option<string>)
    ensures r.Some? ==> |r.value| > 0 && StartsWith(path, r.value) && |r.value| < |path|
    ensures r.None? <==> forall i :: 0 <= i < |path| ==> path[i] != '/' || (i == 0 && |path| == 1)
  {
    var k := LastIndexOf(path, '/');
    if k > 0 then Some(path[..k])
    else if k == 0 && |path| > 1 then Some("/")
    else None
  }

  /** `generateOutputPath`: an explicit output file is used with only its
      extension fixed; otherwise the generated name goes next to a file
      input (or in the current directory when it has no parent) or inside a
      directory input. */
  function GenerateOutputPath(document: Converter.OpenApiDocument, input: string, inputIsFile: bool,
                              outputFile: Option<string>, format: string): (r: string)
    ensures outputFile.Some? ==> r == EnsureCorrectExtension(outputFile.value, format) && StartsWith(r, outputFile.value)
    ensures outputFile.None? ==> EndsWith(r, GenerateFileName(document.sourceFileName, format))
    ensures outputFile.None? && inputIsFile && Parent(input).None? ==> r == GenerateFileName(document.sourceFileName, format)
    ensures outputFile.None? && inputIsFile && Parent(input).Some? ==>
              r == Child(Parent(input).value, GenerateFileName(document.sourceFileName, format))
    ensures outputFile.None? && !inputIsFile ==> r == Child(input, GenerateFileName(document.sourceFileName, format))
    ensures outputFile.None? && inputIsFile && Parent(input).Some? ==> StartsWith(r, Parent(input).value)
    ensures outputFile.None? && !inputIsFile && input != [] ==> StartsWith(r, input)
    ensures HasFormatExtension(r, format)
  {
    if outputFile.Some? then EnsureCorrectExtension(outputFile.value, format)
    else
      var name := GenerateFileName(document.sourceFileName, format);
      var r := if inputIsFile then
        (match Parent(input) case Some(dir) => Child(dir, name) case None => name)
      else Child(input, name);
      GeneratedNameHasExtension(r, name, format);
      r
  }

  /** A path ending in a generated name carries the format's extension. */
  lemma GeneratedNameHasExtension(path: string, name: string, format: string)
    requires EndsWith(name, FormatExtension(format)) && EndsWith(path, name)
    ensures HasFormatExtension(path, format)
  {
    var ext := FormatExtension(format);
    assert path[|path| - |ext|..] == ext;
    assert ToLower(ext) == ext;
    assert ToLower(path)[|path| - |ext|..] == ToLower(path[|path| - |ext|..]);
  }

  /** A file `dir/f` converts to the generated name in the same directory,
      joined by exactly one `/`. */
  lemma OutputBesideInput(document: Converter.OpenApiDocument, dir: string, f: string, format: string)
    requires dir != [] && dir[|dir| - 1] != '/'
    requires forall i :: 0 <= i < |f| ==> f[i] != '/'
    requires forall i :: 0 <= i < |document.sourceFileName| ==> document.sourceFileName[i] != '/'
    ensures GenerateOutputPath(document, dir + "/" + f, true, None, format)
              == dir + "/" + GenerateFileName(document.sourceFileName, format)
  {
    var input := dir + "/" + f;
    assert input[|dir|] == '/';
    assert forall j :: |dir| < j < |input| ==> input[j] == f[j - |dir| - 1];
    LastIndexOfAt(input, '/', |dir|);
    assert input[..|dir|] == dir;
    var name := GenerateFileName(document.sourceFileName, format);
    var stem := StripRaml(document.sourceFileName);
    assert stem == [] || stem[0] == document.sourceFileName[0];
    assert name[0] != '/';
  }

  /** A directory input gets the generated name inside it. */
  lemma OutputInsideDirectory(document: Converter.OpenApiDocument, dir: string, format: string)
    requires dir != [] && dir != "/"
    requires forall i :: 0 <= i < |document.sourceFileName| ==> document.sourceFileName[i] != '/'
    ensures GenerateOutputPath(document, dir, false, None, format)
              == dir + "/" + GenerateFileName(document.sourceFileName, format)
  {
    var name := GenerateFileName(document.sourceFileName, format);
    var stem := StripRaml(document.sourceFileName);
    assert stem == [] || stem[0] == document.sourceFileName[0];
    assert name[0] != '/';
  }
}
