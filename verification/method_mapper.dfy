/** `MethodMapper`: one RAML method to one OpenAPI operation, with its
    operation ID, parameters, request body, responses and the security
    requirements it inherits. */
module MethodMapper {
  import opened Wrappers
  import opened Strings
  import opened OrderedMaps
  import opened Raml
  import opened OpenApi
  import TypeConverter
  import ParameterMapper
  import ResponseMapper
  import Seqs

  // ---------------------------------------------------------------------
  // Security requirements
  // ---------------------------------------------------------------------

  /** A `securedBy` entry that means "no security": a null element, a
      reference without a name, or a reference named `null`. */
  predicate ClearsSecurity(ref: SchemeRef) {
    ref.NullRef? || ref.refName.None? || ref.refName.value == "null"
  }

  /** The requirement a named reference stands for; absent scopes are an empty list. */
  function RequirementOf(ref: SchemeRef): (r: SecurityRequirement)
    requires !ClearsSecurity(ref)
    ensures r.scheme == ref.refName.value && r.scheme != "null"
    ensures r.scopes == if ref.scopes.Some? then ref.scopes.value else []
  {
    Requirement(ref.refName.value, ref.scopes.GetOr([]))
  }

  /** The loop of `mapMethodSecurity` from a list already built: a clearing
      entry anywhere discards everything, otherwise one requirement per entry. */
  function SecurityFrom(refs: seq<SchemeRef>, acc: seq<SecurityRequirement>): (r: seq<SecurityRequirement>)
    ensures (exists i :: 0 <= i < |refs| && ClearsSecurity(refs[i])) ==> r == []
    ensures (forall i :: 0 <= i < |refs| ==> !ClearsSecurity(refs[i])) ==>
              |r| == |acc| + |refs| && r[..|acc|] == acc &&
              forall i :: 0 <= i < |refs| ==> r[|acc| + i] == RequirementOf(refs[i])
    decreases |refs|
  {
    if |refs| == 0 then acc
    else if ClearsSecurity(refs[0]) then []
    else
      var r := SecurityFrom(refs[1..], acc + [RequirementOf(refs[0])]);
      assert (exists i :: 0 <= i < |refs| && ClearsSecurity(refs[i])) ==> r == [] by {
        if exists i :: 0 <= i < |refs| && ClearsSecurity(refs[i]) {
          var i :| 0 <= i < |refs| && ClearsSecurity(refs[i]);
          assert refs[1..][i - 1] == refs[i];
        }
      }
      assert (forall i :: 0 <= i < |refs| ==> !ClearsSecurity(refs[i])) ==>
               forall i :: 0 <= i < |refs| ==> r[|acc| + i] == RequirementOf(refs[i]) by {
        if forall i :: 0 <= i < |refs| ==> !ClearsSecurity(refs[i]) {
          forall i | 0 <= i < |refs| ensures r[|acc| + i] == RequirementOf(refs[i]) {
            if i > 0 {
              assert refs[1..][i - 1] == refs[i];
              assert r[|acc + [RequirementOf(refs[0])]| + (i - 1)] == RequirementOf(refs[1..][i - 1]);
            } else {
              assert r[..|acc| + 1] == acc + [RequirementOf(refs[0])];
            }
          }
        }
      }
      r
  }

  /** `mapMethodSecurity`: one requirement per scheme reference, in order,
      unless some entry clears security, in which case none at all. */
  function MapMethodSecurity(refs: seq<SchemeRef>): (r: seq<SecurityRequirement>)
    ensures (exists i :: 0 <= i < |refs| && ClearsSecurity(refs[i])) ==> r == []
    ensures (forall i :: 0 <= i < |refs| ==> !ClearsSecurity(refs[i])) ==>
              |r| == |refs| && forall i :: 0 <= i < |refs| ==> r[i] == RequirementOf(refs[i])
  {
    SecurityFrom(refs, [])
  }

  /** The `securedBy` lists consulted for a method, most specific first. */
  function SecurityLevels(m: Method, res: Option<Resource>, api: Option<Api>): seq<seq<SchemeRef>> {
    [m.securedBy,
     if res.Some? then res.value.securedBy else [],
     if api.Some? then api.value.securedBy else []]
  }

  /** Reference definition of inheritance: the first non-empty list. */
  function FirstDeclared(levels: seq<seq<SchemeRef>>): (r: Option<seq<SchemeRef>>)
    ensures r.None? <==> forall k :: 0 <= k < |levels| ==> levels[k] == []
    ensures r.Some? ==> exists k :: 0 <= k < |levels| && levels[k] == r.value && r.value != [] &&
                          forall j :: 0 <= j < k ==> levels[j] == []
  {
    if |levels| == 0 then None
    else if levels[0] != [] then Some(levels[0])
    else
      var r := FirstDeclared(levels[1..]);
      assert r.Some? ==> exists k :: 0 <= k < |levels| && levels[k] == r.value && r.value != [] &&
                            forall j :: 0 <= j < k ==> levels[j] == [] by {
        if r.Some? {
          var k :| 0 <= k < |levels[1..]| && levels[1..][k] == r.value && r.value != [] &&
                   forall j :: 0 <= j < k ==> levels[1..][j] == [];
          assert forall j :: 0 <= j < k + 1 ==> levels[j] == [] by {
            forall j | 0 <= j < k + 1 ensures levels[j] == [] {
              if j > 0 { assert levels[j] == levels[1..][j - 1]; }
            }
          }
          assert levels[k + 1] == r.value;
        }
      }
      assert r.None? ==> forall k :: 0 <= k < |levels| ==> levels[k] == [] by {
        if r.None? {
          forall k | 0 <= k < |levels| ensures levels[k] == [] {
            if k > 0 { assert levels[k] == levels[1..][k - 1]; }
          }
        }
      }
      r
  }

  /** `resolveSecurityRequirements`: the method's own `securedBy`, else its
      resource's, else the API's; `None` when none of them declares any. */
  function ResolveSecurity(m: Method, res: Option<Resource>, api: Option<Api>): (r: Option<seq<SecurityRequirement>>)
    ensures var d := FirstDeclared(SecurityLevels(m, res, api));
            r == if d.Some? then Some(MapMethodSecurity(d.value)) else None
  {
    var levels := SecurityLevels(m, res, api);
    assert levels[1..][1..] == [levels[2]];
    if m.securedBy != [] then Some(MapMethodSecurity(m.securedBy))
    else if res.Some? && res.value.securedBy != [] then Some(MapMethodSecurity(res.value.securedBy))
    else if api.Some? && api.value.securedBy != [] then Some(MapMethodSecurity(api.value.securedBy))
    else None
  }

  /** `securedBy: [null]` on a method switches security off for it, whatever
      its resource or the API declare. */
  lemma ExplicitNoSecurity(m: Method, res: Option<Resource>, api: Option<Api>)
    requires m.securedBy == [NullRef]
    ensures ResolveSecurity(m, res, api) == Some([])
  {
    assert ClearsSecurity(m.securedBy[0]);
  }

  // ---------------------------------------------------------------------
  // Operation IDs from the resource path
  // ---------------------------------------------------------------------

  /** A character of the regular-expression class `[a-zA-Z0-9_]`. */
  predicate IsWordChar(c: char) {
    IsAsciiAlnum(c) || c == '_'
  }

  predicate AllWordChars(s: string) {
    forall i :: 0 <= i < |s| ==> IsWordChar(s[i])
  }

  /** `replaceAll("^/", "")`: at most one leading slash removed. */
  function DropLeadingSlash(s: string): (r: string)
    ensures |s| > 0 && s[0] == '/' ==> r == s[1..]
    ensures (|s| == 0 || s[0] != '/') ==> r == s
  {
    if |s| > 0 && s[0] == '/' then s[1..] else s
  }

  /** `replaceAll("[^a-zA-Z0-9_]", "_")`. */
  function ReplaceNonWord(s: string): (r: string)
    ensures |r| == |s| && AllWordChars(r)
    ensures forall i :: 0 <= i < |s| ==> (IsWordChar(s[i]) <==> r[i] == s[i])
  {
    seq(|s|, i requires 0 <= i < |s| => if IsWordChar(s[i]) then s[i] else '_')
  }

  /** Removing the one trailing underscore a collapsed string can have
      leaves no trailing underscore at all. */
  lemma DropTrailingClean(f: string)
    requires AllWordChars(f) && NoDoubled(f, '_')
    ensures var r := DropTrailing(f, '_');
            AllWordChars(r) && NoDoubled(r, '_') && (|r| > 0 ==> r[|r| - 1] != '_')
  {
    var r := DropTrailing(f, '_');
    if |f| > 0 && f[|f| - 1] == '_' && |r| > 0 {
      assert r[|r| - 1] == f[|f| - 2];
    }
  }

  /** The path part of an operation ID: the rewriting chain of
      `generateOperationId`, applied in the source's order. */
  function SanitizePath(path: string): (r: string)
    ensures AllWordChars(r)
    ensures NoDoubled(r, '_')
    ensures |r| > 0 ==> r[|r| - 1] != '_'
  {
    var a := DropLeadingSlash(path);
    var b := ReplaceChar(a, '/', "_");
    var c := ReplaceChar(b, '{', "");
    var d := ReplaceChar(c, '}', "");
    var e := ReplaceNonWord(d);
    var f := CollapseRuns(e, '_');
    assert AllWordChars(f) by {
      forall i | 0 <= i < |f| ensures IsWordChar(f[i]) {
        var j :| 0 <= j < |e| && e[j] == f[i];
      }
    }
    DropTrailingClean(f);
    DropTrailing(f, '_')
  }

  /** When the slash and brace rewriting already yields a clean string,
      the remaining steps leave it alone. */
  lemma SanitizeVia(path: string, d: string)
    requires ReplaceChar(ReplaceChar(ReplaceChar(DropLeadingSlash(path), '/', "_"), '{', ""), '}', "") == d
    requires AllWordChars(d) && NoDoubled(d, '_') && (|d| > 0 ==> d[|d| - 1] != '_')
    ensures SanitizePath(path) == d
  {
    assert ReplaceNonWord(d) == d;
  }

  /** A path part that is already clean is left as it is, so sanitizing is idempotent. */
  lemma SanitizeFixpoint(s: string)
    requires AllWordChars(s) && NoDoubled(s, '_') && (|s| > 0 ==> s[|s| - 1] != '_')
    ensures SanitizePath(s) == s
  {
    assert |s| > 0 ==> s[0] != '/' by {
      if |s| > 0 { assert IsWordChar(s[0]); }
    }
    assert '/' !in s && '{' !in s && '}' !in s by {
      forall i | 0 <= i < |s| ensures s[i] != '/' && s[i] != '{' && s[i] != '}' {
        assert IsWordChar(s[i]);
      }
    }
    SanitizeVia(s, s);
  }

  lemma SanitizeIdempotent(path: string)
    ensures SanitizePath(SanitizePath(path)) == SanitizePath(path)
  {
    SanitizeFixpoint(SanitizePath(path));
  }

  /** Distinct resource paths can share a path part: a template parameter
      and a literal segment of the same name are not told apart. */
  lemma TemplateAndLiteralCollide()
    ensures SanitizePath("/a/{b}") == SanitizePath("/a/b") == "a_b"
  {
    SanitizeTemplate();
    SanitizeLiteral();
  }

  lemma SanitizeTemplate()
    ensures SanitizePath("/a/{b}") == "a_b"
  {
    assert DropLeadingSlash("/a/{b}") == "a/{b}";
    TemplateSlash();
    TemplateOpenBrace();
    TemplateCloseBrace();
    CleanAB();
    SanitizeVia("/a/{b}", "a_b");
  }

  lemma SanitizeLiteral()
    ensures SanitizePath("/a/b") == "a_b"
  {
    assert DropLeadingSlash("/a/b") == "a/b";
    LiteralSlash();
    LiteralNoBraces();
    CleanAB();
    SanitizeVia("/a/b", "a_b");
  }

  lemma LiteralSlash()
    ensures ReplaceChar("a/b", '/', "_") == "a_b"
  {
  }

  lemma LiteralNoBraces()
    ensures ReplaceChar("a_b", '{', "") == "a_b" && ReplaceChar("a_b", '}', "") == "a_b"
  {
  }

  lemma CleanAB()
    ensures AllWordChars("a_b") && NoDoubled("a_b", '_')
  {
    assert IsWordChar("a_b"[0]) && IsWordChar("a_b"[1]) && IsWordChar("a_b"[2]);
  }

  lemma TemplateSlash()
    ensures ReplaceChar("a/{b}", '/', "_") == "a_{b}"
  {
  }

  lemma TemplateOpenBrace()
    ensures ReplaceChar("a_{b}", '{', "") == "a_b}"
  {
  }

  lemma TemplateCloseBrace()
    ensures ReplaceChar("a_b}", '}', "") == "a_b"
  {
  }

  // ---------------------------------------------------------------------
  // Operation IDs from the description
  // ---------------------------------------------------------------------

  /** Position of the first `c` in `s`. */
  function IndexOf(s: string, c: char): (k: nat)
    requires c in s
    ensures k < |s| && s[k] == c && c !in s[..k]
  {
    if s[0] == c then 0
    else
      assert c in s[1..] by {
        var i :| 0 <= i < |s| && s[i] == c;
        assert s[1..][i - 1] == c;
      }
      var k := IndexOf(s[1..], c) + 1;
      assert s[..k] == [s[0]] + s[1..][..k - 1];
      k
  }

  /** Some `(` is followed, anywhere later, by a `)`. */
  predicate HasParenPair(s: string) {
    exists a, b :: 0 <= a < b < |s| && s[a] == '(' && s[b] == ')'
  }

  /** `replaceAll("\\([^)]*\\)", "")`: from the first `(` up to the next `)`
      is removed, and the scan resumes after that `)`. */
  function RemoveParens(s: string): (r: string)
    ensures |r| <= |s|
    ensures !HasParenPair(r)
    ensures !HasParenPair(s) ==> r == s
    decreases |s|
  {
    if '(' !in s then s
    else
      var i := IndexOf(s, '(');
      var tail := s[i + 1..];
      if ')' !in tail then
        NoCloseAfterOpen(s, i);
        s
      else
        var j := i + 1 + IndexOf(tail, ')');
        var rest := RemoveParens(s[j + 1..]);
        NoPairAfterHead(s[..i], rest);
        PairAt(s, i, j);
        s[..i] + rest
  }

  lemma PairAt(s: string, i: nat, j: nat)
    requires i < |s| && s[i] == '(' && ')' in s[i + 1..] && j == i + 1 + IndexOf(s[i + 1..], ')')
    ensures j < |s| && HasParenPair(s)
  {
    assert s[j] == s[i + 1..][j - i - 1];
  }

  /** No `)` after the first `(`: no pair at all. */
  lemma NoCloseAfterOpen(s: string, i: nat)
    requires i < |s| && s[i] == '(' && '(' !in s[..i] && ')' !in s[i + 1..]
    ensures !HasParenPair(s)
  {
    forall a, b | 0 <= a < b < |s| && s[a] == '(' ensures s[b] != ')' {
      assert s[i + 1..][b - i - 1] == s[b];
    }
  }

  /** A head without `(` before a tail without a pair has no pair. */
  lemma NoPairAfterHead(head: string, rest: string)
    requires '(' !in head && !HasParenPair(rest)
    ensures !HasParenPair(head + rest)
  {
    var r := head + rest;
    forall a, b | 0 <= a < b < |r| && r[a] == '(' ensures r[b] != ')' {
      assert r[b] == rest[b - |head|];
    }
  }

  /** Removing parenthesised text twice removes nothing more. */
  lemma RemoveParensIdempotent(s: string)
    ensures RemoveParens(RemoveParens(s)) == RemoveParens(s)
  {
  }

  /** Filler words `isCommonWord` skips. */
  const COMMON_WORDS: seq<string> := [
    "a", "an", "the", "is", "are", "was", "were", "be", "been", "being",
    "have", "has", "had", "do", "does", "did", "will", "would", "should",
    "could", "may", "might", "must", "can", "of", "for", "to", "in", "on",
    "at", "by", "with", "from", "as", "into", "through", "during", "before",
    "after", "above", "below", "between", "under", "public", "private"]

  predicate IsCommonWord(w: string) {
    w in COMMON_WORDS
  }

  /** The words of a description: parenthesised text removed, trimmed,
      split on runs of white space. */
  function Words(description: string): (r: seq<string>)
    ensures Trim(RemoveParens(description)) == [] ==> r == [[]]
    ensures Trim(RemoveParens(description)) != [] ==>
              (|r| > 0 && forall i :: 0 <= i < |r| ==> r[i] != [])
  {
    SplitTrimmed(RemoveParens(description));
    SplitOnSpaces(Trim(RemoveParens(description)))
  }

  /** The word list shapes `Words` produces: no empty word, or the single
      empty word of an empty cleaned text (which only ever meets an empty
      builder). */
  predicate WordsOk(acc: string, words: seq<string>) {
    (forall i :: 0 <= i < |words| ==> words[i] != []) || (acc == [] && words == [[]])
  }

  /** `Character.toUpperCase(word.charAt(0))` followed by the rest of the word. */
  function Capitalize(w: string): (r: string)
    requires |w| > 0
    ensures |r| == |w| && r[1..] == w[1..] && r[0] == UpperChar(w[0])
  {
    [UpperChar(w[0])] + w[1..]
  }

  /** The word loop of `generateFromDescription`: each word lowercased,
      filler words skipped, the first kept word as is and every later one
      capitalised. */
  function CamelFrom(acc: string, words: seq<string>): (r: string)
    requires WordsOk(acc, words)
    ensures |acc| <= |r|
    decreases |words|
  {
    if |words| == 0 then acc
    else
      var w := ToLower(words[0]);
      if IsCommonWord(w) then CamelFrom(acc, words[1..])
      else if |acc| == 0 then CamelFrom(w, words[1..])
      else CamelFrom(acc + Capitalize(w), words[1..])
  }

  /** Reference definition: the kept words, lowercased, in order. */
  function Meaningful(words: seq<string>): (r: seq<string>)
    ensures forall i :: 0 <= i < |r| ==> !IsCommonWord(r[i]) && r[i] == ToLower(r[i])
  {
    if |words| == 0 then []
    else
      var w := ToLower(words[0]);
      ToLowerIdempotent(words[0]);
      (if IsCommonWord(w) then [] else [w]) + Meaningful(words[1..])
  }

  /** No word is empty. */
  predicate NonEmptyWords(ws: seq<string>) {
    forall i :: 0 <= i < |ws| ==> ws[i] != []
  }

  /** Reference definition: every word capitalised. */
  function CapitalizeAll(ws: seq<string>): (r: seq<string>)
    requires NonEmptyWords(ws)
    ensures |r| == |ws| && forall i :: 0 <= i < |ws| ==> r[i] == Capitalize(ws[i])
  {
    if |ws| == 0 then [] else [Capitalize(ws[0])] + CapitalizeAll(ws[1..])
  }

  /** Filtering keeps words non-empty. */
  lemma {:induction false} MeaningfulNonEmpty(words: seq<string>)
    requires NonEmptyWords(words)
    ensures NonEmptyWords(Meaningful(words))
  {
    if |words| > 0 {
      assert NonEmptyWords(words[1..]) by {
        forall i | 0 <= i < |words| - 1 ensures words[1..][i] != [] { assert words[1..][i] == words[i + 1]; }
      }
      MeaningfulNonEmpty(words[1..]);
      var m := Meaningful(words);
      var w := ToLower(words[0]);
      assert |w| == |words[0]|;
      forall i | 0 <= i < |m| ensures m[i] != [] {
        if !IsCommonWord(w) && i > 0 {
          assert m[i] == Meaningful(words[1..])[i - 1];
        } else if IsCommonWord(w) {
          assert m[i] == Meaningful(words[1..])[i];
        }
      }
    }
  }

  /** Once a first word is in the builder, the loop appends every kept
      word capitalised. */
  lemma {:induction false} CamelAfterFirst(acc: string, words: seq<string>)
    requires acc != [] && NonEmptyWords(words)
    ensures NonEmptyWords(Meaningful(words))
    ensures CamelFrom(acc, words) == acc + Concat(CapitalizeAll(Meaningful(words)))
    decreases |words|
  {
    MeaningfulNonEmpty(words);
    if |words| > 0 {
      var w := ToLower(words[0]);
      var rest := words[1..];
      CamelStep(acc, words);
      CamelAfterFirst(if IsCommonWord(w) then acc else acc + Capitalize(w), rest);
      if !IsCommonWord(w) {
        var m := Meaningful(rest);
        CapitalizeCons(w, m);
        assert (acc + Capitalize(w)) + Concat(CapitalizeAll(m)) == acc + (Capitalize(w) + Concat(CapitalizeAll(m)));
      }
    }
  }

  /** One turn of the word loop once the builder is non-empty. */
  lemma CamelStep(acc: string, words: seq<string>)
    requires acc != [] && NonEmptyWords(words) && |words| > 0
    ensures NonEmptyWords(words[1..]) && ToLower(words[0]) != []
    ensures var w := ToLower(words[0]);
            IsCommonWord(w) ==> CamelFrom(acc, words) == CamelFrom(acc, words[1..]) && Meaningful(words) == Meaningful(words[1..])
    ensures var w := ToLower(words[0]);
            !IsCommonWord(w) ==> CamelFrom(acc, words) == CamelFrom(acc + Capitalize(w), words[1..]) &&
                                 Meaningful(words) == [w] + Meaningful(words[1..])
  {
    var rest := words[1..];
    assert NonEmptyWords(rest) by {
      forall i | 0 <= i < |rest| ensures rest[i] != [] { assert rest[i] == words[i + 1]; }
    }
    assert |ToLower(words[0])| == |words[0]|;
    assert WordsOk(acc, words);
  }

  lemma CapitalizeCons(w: string, m: seq<string>)
    requires w != [] && NonEmptyWords(m)
    ensures NonEmptyWords([w] + m)
    ensures Concat(CapitalizeAll([w] + m)) == Capitalize(w) + Concat(CapitalizeAll(m))
  {
    var caps := CapitalizeAll([w] + m);
    assert caps == [Capitalize(w)] + CapitalizeAll(m) by {
      assert ([w] + m)[1..] == m;
    }
    assert caps[1..] == CapitalizeAll(m);
  }

  /** The exact identifier (casing included): the first kept word in lower
      case followed by every later kept word capitalised. */
  lemma {:induction false} CamelExact(words: seq<string>)
    requires WordsOk([], words)
    ensures var m := Meaningful(words);
            m == [] ==> CamelFrom([], words) == []
    ensures var m := Meaningful(words);
            m != [] ==> NonEmptyWords(m[1..]) && CamelFrom([], words) == m[0] + Concat(CapitalizeAll(m[1..]))
    decreases |words|
  {
    if |words| > 0 {
      var w := ToLower(words[0]);
      var rest := words[1..];
      if words == [[]] {
        assert rest == [];
        assert w == [];
        if !IsCommonWord(w) {
          assert Meaningful(words) == [[]];
        }
      } else {
        assert NonEmptyWords(words);
        assert NonEmptyWords(rest) by {
          forall i | 0 <= i < |rest| ensures rest[i] != [] { assert rest[i] == words[i + 1]; }
        }
        if IsCommonWord(w) {
          assert Meaningful(words) == Meaningful(rest);
          CamelExact(rest);
        } else {
          assert |w| == |words[0]|;
          CamelAfterFirst(w, rest);
          assert Meaningful(words) == [w] + Meaningful(rest);
          assert Meaningful(words)[1..] == Meaningful(rest);
        }
      }
    }
  }

  lemma LowerCapitalize(w: string)
    requires |w| > 0 && ToLower(w) == w
    ensures ToLower(Capitalize(w)) == w
  {
    var c := Capitalize(w);
    forall i | 0 <= i < |w| ensures ToLower(c)[i] == w[i] {
      if i == 0 {
        assert LowerChar(w[0]) == w[0];
      } else {
        assert c[i] == w[i];
        assert LowerChar(w[i]) == w[i];
      }
    }
  }

  /** Read case-insensitively, the identifier is the kept words run together. */
  lemma {:induction false} CamelLower(acc: string, words: seq<string>)
    requires WordsOk(acc, words)
    ensures ToLower(CamelFrom(acc, words)) == ToLower(acc) + Concat(Meaningful(words))
    decreases |words|, 1
  {
    if |words| > 0 {
      var w := ToLower(words[0]);
      if IsCommonWord(w) {
        assert Meaningful(words) == Meaningful(words[1..]);
        assert WordsOk(acc, words[1..]);
        CamelLower(acc, words[1..]);
      } else {
        CamelLowerKept(acc, words);
      }
    }
  }

  /** The step of `CamelLower` for a kept first word. */
  lemma {:induction false} CamelLowerKept(acc: string, words: seq<string>)
    requires WordsOk(acc, words) && |words| > 0 && !IsCommonWord(ToLower(words[0]))
    ensures ToLower(CamelFrom(acc, words)) == ToLower(acc) + Concat(Meaningful(words))
    decreases |words|, 0
  {
    var w := ToLower(words[0]);
    var rest := words[1..];
    ToLowerIdempotent(words[0]);
    assert WordsOk(acc, rest);
    assert Meaningful(words) == [w] + Meaningful(rest);
    assert Concat(Meaningful(words)) == w + Concat(Meaningful(rest));
    if |acc| == 0 {
      CamelLower(w, rest);
    } else {
      CamelLower(acc + Capitalize(w), rest);
      ToLowerAppend(acc, Capitalize(w));
      LowerCapitalize(w);
    }
  }

  /** `generateFromDescription`: `None` for a blank description; otherwise
      the camel-case identifier, or the method name when that identifier
      is shorter than three characters. */
  function GenerateFromDescription(description: string, methodName: string): (r: Option<string>)
    ensures r.None? <==> forall i :: 0 <= i < |description| ==> IsBlankChar(description[i])
    ensures r.Some? ==> r.value == methodName || |r.value| >= 3
    ensures r.Some? ==> r.value == methodName || ToLower(r.value) == Concat(Meaningful(Words(description)))
    ensures r.Some? ==> var id := CamelFrom([], Words(description));
              r.value == if |id| < 3 then methodName else id
  {
    if Trim(description) == [] then None
    else
      var words := Words(description);
      if |words| == 0 then None
      else
        DescriptionCamel(description);
        var id := CamelFrom([], words);
        if |id| < 3 then Some(methodName) else Some(id)
  }

  /** The words of any description can be run together, and the result,
      read case-insensitively, is the kept words. */
  lemma DescriptionCamel(description: string)
    ensures WordsOk([], Words(description))
    ensures ToLower(CamelFrom([], Words(description))) == Concat(Meaningful(Words(description)))
  {
    var words := Words(description);
    assert WordsOk([], words);
    CamelLower([], words);
    assert ToLower([]) == [];
  }

  /** A trailing parenthesised group is removed whole. */
  lemma RemoveTrailingGroup(a: string, x: string)
    requires '(' !in a && ')' !in x
    ensures RemoveParens(a + "(" + x + ")") == a
  {
    var s := a + "(" + x + ")";
    assert s[..|a|] == a && s[|a|] == '(';
    IndexOfAt(s, '(', |a|);
    var tail := s[|a| + 1..];
    assert tail == x + ")";
    assert tail[..|x|] == x && tail[|x|] == ')';
    IndexOfAt(tail, ')', |x|);
    assert s[|a| + 1 + |x| + 1..] == [];
    assert RemoveParens([]) == [];
  }

  /** The first `c` is found where it is. */
  lemma IndexOfAt(s: string, c: char, k: nat)
    requires k < |s| && s[k] == c && c !in s[..k]
    ensures IndexOf(s, c) == k
  {
  }

  lemma DescriptionWords(a: string, b: string, x: string)
    requires IsSolid(a) && IsSolid(b) && '(' !in a && '(' !in b && ')' !in x
    ensures Words(a + " " + b + " (" + x + ")") == [a, b]
  {
    var d := a + " " + b + " (" + x + ")";
    assert d == (a + " " + b + " ") + "(" + x + ")";
    assert '(' !in a + " " + b + " ";
    RemoveTrailingGroup(a + " " + b + " ", x);
    TrimTwoWords(a, b);
    SplitTwoWords(a, b);
  }

  lemma CamelTwo(a: string, b: string)
    requires IsSolid(a) && IsSolid(b)
    requires !IsCommonWord(ToLower(a)) && !IsCommonWord(ToLower(b))
    ensures CamelFrom([], [a, b]) == ToLower(a) + Capitalize(ToLower(b))
  {
    var w := [a, b];
    assert w[1..] == [b];
    assert [b][1..] == [];
    var la := ToLower(a);
    assert |la| > 0;
    assert CamelFrom(la + Capitalize(ToLower(b)), []) == la + Capitalize(ToLower(b));
    assert CamelFrom(la, [b]) == CamelFrom(la + Capitalize(ToLower(b)), []);
    assert CamelFrom([], w) == CamelFrom(la, [b]);
  }

  /** The shape of the documented examples ("Create product (admin only)"
      gives "createProduct"): two meaningful words and a parenthesised
      remark become the lowercased first word and the capitalised second. */
  lemma TwoWordDescription(a: string, b: string, x: string, methodName: string)
    requires IsSolid(a) && IsSolid(b) && '(' !in a && '(' !in b && ')' !in x
    requires !IsCommonWord(ToLower(a)) && !IsCommonWord(ToLower(b))
    requires |a| + |b| >= 3
    ensures GenerateFromDescription(a + " " + b + " (" + x + ")", methodName) ==
            Some(ToLower(a) + Capitalize(ToLower(b)))
  {
    var d := a + " " + b + " (" + x + ")";
    DescriptionWords(a, b, x);
    CamelTwo(a, b);
    assert !IsBlankChar(d[0]);
    assert |ToLower(a) + Capitalize(ToLower(b))| == |a| + |b|;
    assert Trim(d) != [];
    assert CamelFrom([], Words(d)) == ToLower(a) + Capitalize(ToLower(b));
    var g := GenerateFromDescription(d, methodName);
    assert g.Some? && g.value == CamelFrom([], Words(d));
  }

  /** `generateOperationId`: the lowercased verb joined to the sanitized
      path; failing that an identifier from the description; failing that
      the lowercased verb alone. */
  function GenerateOperationId(verb: string, description: Option<string>, path: string): (r: string)
    ensures var part := SanitizePath(path);
            path != "" && path != "/" && part != [] ==> r == ToLower(verb) + "_" + part
    ensures (path == "" || path == "/" || SanitizePath(path) == []) && description.None? ==> r == ToLower(verb)
    ensures (path == "" || path == "/" || SanitizePath(path) == []) && description.Some? ==>
              r == ToLower(verb) || (|r| >= 3 && ToLower(r) == Concat(Meaningful(Words(description.value))))
    ensures (path == "" || path == "/" || SanitizePath(path) == []) && description.Some? ==>
              var id := CamelFrom([], Words(description.value));
              var blank := forall i :: 0 <= i < |description.value| ==> IsBlankChar(description.value[i]);
              r == if blank || |id| < 3 then ToLower(verb) else id
    ensures |verb| > 0 ==> |r| > 0
  {
    var methodName := ToLower(verb);
    var part := SanitizePath(path);
    if path != "" && path != "/" && part != [] then methodName + "_" + part
    else if description.Some? then
      var g := GenerateFromDescription(description.value, methodName);
      if g.Some? && g.value != [] then g.value else methodName
    else methodName
  }

  /** Splitting at the first underscore: a prefix free of underscores is
      recovered from its join with a suffix. */
  lemma JoinedAtUnderscore(m1: string, s1: string, m2: string, s2: string)
    requires '_' !in m1 && '_' !in m2
    requires m1 + "_" + s1 == m2 + "_" + s2
    ensures m1 == m2 && s1 == s2
  {
    var x := m1 + "_" + s1;
    var y := m2 + "_" + s2;
    assert x[..|m1|] == m1 && x[|m1|] == '_';
    assert y[..|m2|] == m2 && y[|m2|] == '_';
    var k := IndexOf(x, '_');
    assert k == |m1|;
    assert k == |m2|;
    assert s1 == x[|m1| + 1..] && s2 == y[|m2| + 1..];
  }

  /** Path-based identifiers determine the verb and the path part, so two
      operations collide only when their sanitized paths do. */
  lemma OperationIdDeterminesParts(v1: string, d1: Option<string>, p1: string,
                                   v2: string, d2: Option<string>, p2: string)
    requires '_' !in ToLower(v1) && '_' !in ToLower(v2)
    requires p1 != "" && p1 != "/" && SanitizePath(p1) != []
    requires p2 != "" && p2 != "/" && SanitizePath(p2) != []
    requires GenerateOperationId(v1, d1, p1) == GenerateOperationId(v2, d2, p2)
    ensures ToLower(v1) == ToLower(v2) && SanitizePath(p1) == SanitizePath(p2)
  {
    assert GenerateOperationId(v1, d1, p1) == ToLower(v1) + "_" + SanitizePath(p1);
    assert GenerateOperationId(v2, d2, p2) == ToLower(v2) + "_" + SanitizePath(p2);
    JoinedAtUnderscore(ToLower(v1), SanitizePath(p1), ToLower(v2), SanitizePath(p2));
  }

  // ---------------------------------------------------------------------
  // Request bodies
  // ---------------------------------------------------------------------

  /** The first description among the bodies, in declaration order. */
  function FirstDescription(bodies: seq<TypeDecl>): (r: Option<string>)
    ensures r.None? <==> forall i :: 0 <= i < |bodies| ==> bodies[i].description.None?
    ensures r.Some? ==> exists i :: 0 <= i < |bodies| && bodies[i].description == r &&
                          forall j :: 0 <= j < i ==> bodies[j].description.None?
  {
    if |bodies| == 0 then None
    else if bodies[0].description.Some? then bodies[0].description
    else
      var r := FirstDescription(bodies[1..]);
      assert r.Some? ==> exists i :: 0 <= i < |bodies| && bodies[i].description == r &&
                            forall j :: 0 <= j < i ==> bodies[j].description.None? by {
        if r.Some? {
          var i :| 0 <= i < |bodies[1..]| && bodies[1..][i].description == r &&
                   forall j :: 0 <= j < i ==> bodies[1..][j].description.None?;
          assert bodies[i + 1].description == r;
          assert forall j :: 1 <= j < i + 1 ==> bodies[j].description == bodies[1..][j - 1].description;
        }
      }
      assert r.None? ==> forall i :: 0 <= i < |bodies| ==> bodies[i].description.None? by {
        if r.None? {
          assert forall i :: 1 <= i < |bodies| ==> bodies[i] == bodies[1..][i - 1];
        }
      }
      r
  }

  /** Some body is declared required. */
  predicate AnyRequired(bodies: seq<TypeDecl>) {
    exists i :: 0 <= i < |bodies| && bodies[i].required == Some(true)
  }

  /** Some body's `required` is null, which the boolean test unboxes. */
  predicate AnyNullRequired(bodies: seq<TypeDecl>) {
    exists i :: 0 <= i < |bodies| && bodies[i].required.None?
  }

  /** The loop of `mapRequestBody` from a partially built body: each body adds
      its media type, may make the body required, and supplies the
      description if none has been found yet. Unboxing a null `required`
      raises. */
  function BodiesFrom(bodies: seq<TypeDecl>, reg: set<string>, acc: RequestBody): (r: Outcome<RequestBody>)
    ensures r.Err? <==> AnyNullRequired(bodies)
    ensures r.Err? ==> r.error == NullPointer
    decreases |bodies|
  {
    if |bodies| == 0 then Ok(acc)
    else
      var b := bodies[0];
      var content := Put(acc.content, b.name, ResponseMapper.MapMediaType(b, reg));
      if b.required.None? then Err(NullPointer)
      else
        var description := if acc.description.None? && b.description.Some? then b.description else acc.description;
        assert AnyNullRequired(bodies) <==> AnyNullRequired(bodies[1..]) by {
          assert forall i :: 1 <= i < |bodies| ==> bodies[i] == bodies[1..][i - 1];
        }
        BodiesFrom(bodies[1..], reg, RequestBody(content, acc.required || b.required.value, description))
  }

  /** What a successful run of the body loop has built. */
  lemma {:induction false} BodiesFromValue(bodies: seq<TypeDecl>, reg: set<string>, acc: RequestBody)
    requires !AnyNullRequired(bodies)
    ensures var r := BodiesFrom(bodies, reg, acc).value;
            r.content == PutAll(acc.content, ResponseMapper.ContentEntries(bodies, reg)) &&
            r.required == (acc.required || AnyRequired(bodies)) &&
            r.description == if acc.description.Some? then acc.description else FirstDescription(bodies)
    decreases |bodies|
  {
    if |bodies| > 0 {
      var b := bodies[0];
      var rest := bodies[1..];
      var content := Put(acc.content, b.name, ResponseMapper.MapMediaType(b, reg));
      var description := if acc.description.None? && b.description.Some? then b.description else acc.description;
      assert b.required.Some?;
      var acc' := RequestBody(content, acc.required || b.required.value, description);
      RequiredCons(bodies);
      assert BodiesFrom(bodies, reg, acc) == BodiesFrom(rest, reg, acc');
      BodiesFromValue(rest, reg, acc');
    }
  }

  /** The first body's share of the `required` flag. */
  lemma RequiredCons(bodies: seq<TypeDecl>)
    requires |bodies| > 0 && !AnyNullRequired(bodies)
    ensures !AnyNullRequired(bodies[1..])
    ensures AnyRequired(bodies) <==> bodies[0].required.value || AnyRequired(bodies[1..])
  {
    var rest := bodies[1..];
    assert forall i :: 1 <= i < |bodies| ==> bodies[i] == rest[i - 1];
    assert bodies[0].required.Some?;
  }

  /** `mapRequestBody`: one media type per body, required when any body is,
      described by the first body that has a description; a null
      `required` raises. */
  function MapRequestBody(bodies: seq<TypeDecl>, reg: set<string>): (r: Outcome<RequestBody>)
    ensures r.Err? <==> AnyNullRequired(bodies)
    ensures r.Err? ==> r.error == NullPointer
    ensures r.Ok? ==> r.value.content == ResponseMapper.MapContent(bodies, reg)
    ensures r.Ok? ==> Keys(r.value.content) == TypeConverter.Names(bodies)
    ensures r.Ok? ==> (r.value.required <==> AnyRequired(bodies))
    ensures r.Ok? ==> r.value.description == FirstDescription(bodies)
  {
    var r := BodiesFrom(bodies, reg, RequestBody([], false, None));
    if r.Ok? then
      BodiesFromValue(bodies, reg, RequestBody([], false, None));
      r
    else r
  }

  // ---------------------------------------------------------------------
  // Operations
  // ---------------------------------------------------------------------

  /** All parameters of an operation: the accumulated URI parameters of the
      resource, then the method's query parameters, then its headers. */
  function AllParameters(m: Method, uriParams: seq<TypeDecl>, reg: set<string>): (r: seq<Parameter>)
    ensures |r| == |uriParams| + |m.queryParameters| + |m.headers|
    ensures forall i :: 0 <= i < |uriParams| ==>
              r[i].location == InPath && r[i].name == uriParams[i].name && r[i].required == Some(true)
    ensures forall i :: 0 <= i < |m.queryParameters| ==>
              r[|uriParams| + i].location == InQuery && r[|uriParams| + i].name == m.queryParameters[i].name
    ensures forall i :: 0 <= i < |m.headers| ==>
              (var k := |uriParams| + |m.queryParameters| + i;
               r[k].location == InHeader && r[k].name == m.headers[i].name)
    ensures forall i :: 0 <= i < |uriParams| ==>
              r[i] == ParameterMapper.MapParameter(InPath, uriParams[i], reg)
    ensures forall i :: 0 <= i < |m.queryParameters| ==>
              r[|uriParams| + i] == ParameterMapper.MapParameter(InQuery, m.queryParameters[i], reg)
    ensures forall i :: 0 <= i < |m.headers| ==>
              r[|uriParams| + |m.queryParameters| + i] == ParameterMapper.MapParameter(InHeader, m.headers[i], reg)
  {
    var a := ParameterMapper.MapUriParameters(uriParams, reg);
    var b := ParameterMapper.MapQueryParameters(m.queryParameters, reg);
    var c := ParameterMapper.MapHeaders(m.headers, reg);
    Seqs.ConcatIndex3(a, b, c);
    a + b + c
  }

  /** The request body of a method, present only when it declares bodies. */
  function OptionalBody(m: Method, reg: set<string>): (r: Outcome<Option<RequestBody>>)
    ensures r.Err? <==> AnyNullRequired(m.body)
    ensures r.Err? ==> r.error == NullPointer
    ensures r.Ok? ==> (r.value.Some? <==> |m.body| > 0)
    ensures r.Ok? && r.value.Some? ==> MapRequestBody(m.body, reg) == Ok(r.value.value)
  {
    if |m.body| == 0 then Ok(None)
    else
      var b := MapRequestBody(m.body, reg);
      if b.Err? then Err(b.error) else Ok(Some(b.value))
  }

  /** The bodies or response headers of a method hold a null `required`. */
  predicate MethodRaises(m: Method) {
    AnyNullRequired(m.body) ||
    exists resp, h | resp in m.responses && h in resp.headers :: h.required.None?
  }

  /** `mapMethod`: an operation whose ID, summary, description, parameters,
      request body, responses and security follow the rules above. It
      fails exactly when a body or a response header has a null `required`. */
  function MapMethod(m: Method, uriParams: seq<TypeDecl>, path: string,
                     res: Option<Resource>, api: Option<Api>, reg: set<string>): (r: Outcome<Operation>)
    ensures r.Err? <==> MethodRaises(m)
    ensures r.Err? ==> r.error == NullPointer
    ensures r.Ok? ==> r.value.operationId == GenerateOperationId(m.verb, m.description, path)
    ensures r.Ok? && m.description.Some? ==> r.value.summary == m.description && r.value.description == m.description
    ensures r.Ok? && m.description.None? ==> r.value.summary == m.displayName && r.value.description.None?
    ensures r.Ok? ==> (r.value.parameters.Some? <==> |uriParams| + |m.queryParameters| + |m.headers| > 0)
    ensures r.Ok? && r.value.parameters.Some? ==> r.value.parameters.value == AllParameters(m, uriParams, reg)
    ensures r.Ok? ==> (r.value.requestBody.Some? <==> |m.body| > 0)
    ensures r.Ok? && r.value.requestBody.Some? ==> MapRequestBody(m.body, reg) == Ok(r.value.requestBody.value)
    ensures r.Ok? ==> ResponseMapper.MapResponses(m.responses, reg) == Ok(r.value.responses) && |r.value.responses| > 0
    ensures r.Ok? ==> r.value.security == ResolveSecurity(m, res, api)
  {
    var body := OptionalBody(m, reg);
    if body.Err? then Err(body.error)
    else
      var responses := ResponseMapper.MapResponses(m.responses, reg);
      if responses.Err? then Err(responses.error)
      else
        var params := AllParameters(m, uriParams, reg);
        Ok(Operation(GenerateOperationId(m.verb, m.description, path),
                     if m.description.Some? then m.description else m.displayName,
                     m.description,
                     if |params| > 0 then Some(params) else None,
                     body.value, responses.value, ResolveSecurity(m, res, api)))
  }
}
