/** Character and string helpers with the semantics of the Java library
    calls the converter uses (`trim`, `\s`, `toLowerCase` on ASCII,
    `endsWith`, `contains`, `replace`, `split("\\s+")`). */
module Strings {

  /** The characters of the regular-expression class `\s`. */
  predicate IsSpace(c: char) {
    c == ' ' || c == '\t' || c == '\n' || c as int == 11 || c as int == 12 || c == '\r'
  }

  /** `String.trim` removes every leading and trailing character up to U+0020. */
  predicate IsBlankChar(c: char) {
    c as int <= 32
  }

  predicate IsAsciiUpper(c: char) { 'A' <= c <= 'Z' }
  predicate IsAsciiLower(c: char) { 'a' <= c <= 'z' }
  predicate IsAsciiDigit(c: char) { '0' <= c <= '9' }
  predicate IsAsciiAlnum(c: char) { IsAsciiUpper(c) || IsAsciiLower(c) || IsAsciiDigit(c) }

  function LowerChar(c: char): (r: char)
    ensures IsAsciiUpper(c) ==> r as int == c as int + 32
    ensures !IsAsciiUpper(c) ==> r == c
  {
    if IsAsciiUpper(c) then (c as int + 32) as char else c
  }

  function UpperChar(c: char): (r: char)
    ensures IsAsciiLower(c) ==> r as int == c as int - 32
    ensures !IsAsciiLower(c) ==> r == c
  {
    if IsAsciiLower(c) then (c as int - 32) as char else c
  }

  function ToLower(s: string): (r: string)
    ensures |r| == |s|
    ensures forall i :: 0 <= i < |s| ==> r[i] == LowerChar(s[i])
  {
    seq(|s|, i requires 0 <= i < |s| => LowerChar(s[i]))
  }

  function ToUpper(s: string): (r: string)
    ensures |r| == |s|
    ensures forall i :: 0 <= i < |s| ==> r[i] == UpperChar(s[i])
  {
    seq(|s|, i requires 0 <= i < |s| => UpperChar(s[i]))
  }

  /** Lower-casing is idempotent. */
  lemma ToLowerIdempotent(s: string)
    ensures ToLower(ToLower(s)) == ToLower(s)
  {
  }

  lemma ToLowerAppend(a: string, b: string)
    ensures ToLower(a + b) == ToLower(a) + ToLower(b)
  {
    assert forall i :: 0 <= i < |a + b| ==> ToLower(a + b)[i] == (ToLower(a) + ToLower(b))[i];
  }

  predicate StartsWith(s: string, prefix: string) {
    |prefix| <= |s| && s[..|prefix|] == prefix
  }

  predicate EndsWith(s: string, suffix: string) {
    |suffix| <= |s| && s[|s| - |suffix|..] == suffix
  }

  /** `equalsIgnoreCase`, with ASCII case folding. */
  predicate EqualsIgnoreCase(a: string, b: string) {
    ToLower(a) == ToLower(b)
  }

  /** `endsWith` on the lower-cased string, for a lower-case suffix. */
  predicate EndsWithIgnoreCase(s: string, suffix: string) {
    EndsWith(ToLower(s), suffix)
  }

  /** `s.contains(sub)`. */
  predicate Contains(s: string, sub: string)
    decreases |s|
  {
    StartsWith(s, sub) || (|s| > 0 && Contains(s[1..], sub))
  }

  /** No two `c` in a row. */
  predicate NoDoubled(s: string, c: char) {
    forall i :: 0 < i < |s| ==> !(s[i - 1] == c && s[i] == c)
  }

  /** `replaceAll(c + "+", c)`: every run of `c` becomes a single `c`. */
  function CollapseRuns(s: string, c: char): (r: string)
    ensures |r| <= |s| && (|r| == 0 <==> |s| == 0)
    ensures |s| > 0 ==> r[0] == s[0]
    ensures forall i :: 0 <= i < |r| ==> r[i] in s
    ensures NoDoubled(r, c)
    ensures NoDoubled(s, c) ==> r == s
    decreases |s|
  {
    if |s| < 2 then s
    else if s[0] == c && s[1] == c then
      var t := CollapseRuns(s[1..], c);
      WithinTail(s, t);
      t
    else
      var t := CollapseRuns(s[1..], c);
      NoDoubledTail(s, c);
      ConsNoDoubled(s[0], t, c);
      ConsWithin(s, t);
      [s[0]] + t
  }

  lemma NoDoubledTail(s: string, c: char)
    requires |s| > 0
    ensures NoDoubled(s, c) ==> NoDoubled(s[1..], c)
  {
    if NoDoubled(s, c) {
      forall i | 0 < i < |s| - 1 ensures !(s[1..][i - 1] == c && s[1..][i] == c) {
        assert s[1..][i - 1] == s[i] && s[1..][i] == s[i + 1];
      }
    }
  }

  lemma ConsNoDoubled(x: char, t: string, c: char)
    requires NoDoubled(t, c) && (|t| > 0 && x == c ==> t[0] != c)
    ensures NoDoubled([x] + t, c)
  {
    var r := [x] + t;
    forall i | 0 < i < |r| ensures !(r[i - 1] == c && r[i] == c) {
      if i > 1 {
        assert r[i - 1] == t[i - 2] && r[i] == t[i - 1];
      }
    }
  }

  /** Characters of the tail's rewrite are characters of `s`. */
  lemma WithinTail(s: string, t: string)
    requires |s| > 0 && forall i :: 0 <= i < |t| ==> t[i] in s[1..]
    ensures forall i :: 0 <= i < |t| ==> t[i] in s
  {
    forall i | 0 <= i < |t| ensures t[i] in s {
      var j :| 0 <= j < |s| - 1 && s[1..][j] == t[i];
      assert s[j + 1] == t[i];
    }
  }

  lemma ConsWithin(s: string, t: string)
    requires |s| > 0 && forall i :: 0 <= i < |t| ==> t[i] in s[1..]
    ensures forall i :: 0 <= i < |[s[0]] + t| ==> ([s[0]] + t)[i] in s
  {
    WithinTail(s, t);
    forall i | 0 <= i < |[s[0]] + t| ensures ([s[0]] + t)[i] in s {
      if i > 0 {
        assert ([s[0]] + t)[i] == t[i - 1];
      }
    }
  }

  /** A string containing `sub` contains every prefix of `sub`. */
  lemma {:induction false} ContainsPrefix(s: string, sub: string, pre: string)
    requires StartsWith(sub, pre)
    ensures Contains(s, sub) ==> Contains(s, pre)
    decreases |s|
  {
    if StartsWith(s, sub) {
      assert s[..|pre|] == sub[..|pre|];
    } else if |s| > 0 {
      ContainsPrefix(s[1..], sub, pre);
    }
  }

  /** An occurrence starting at `k` is an occurrence. */
  lemma {:induction false} ContainsSuffix(s: string, k: nat, sub: string)
    requires k <= |s| && StartsWith(s[k..], sub)
    ensures Contains(s, sub)
    decreases k
  {
    if k > 0 {
      assert s[1..][k - 1..] == s[k..];
      ContainsSuffix(s[1..], k - 1, sub);
    }
  }

  /** A string lacking one character of `sub` does not contain `sub`. */
  lemma {:induction false} MissingCharNotContained(s: string, sub: string, j: nat)
    requires j < |sub| && sub[j] !in s
    ensures !Contains(s, sub)
    decreases |s|
  {
    if |s| > 0 {
      assert forall c :: c in s[1..] ==> c in s;
      MissingCharNotContained(s[1..], sub, j);
    }
  }

  predicate HasChar(s: string, c: char) {
    c in s
  }

  /** `replaceAll(c + "$", "")`: at most one trailing `c` removed. */
  function DropTrailing(s: string, c: char): (r: string)
    ensures |s| > 0 && s[|s| - 1] == c ==> r == s[..|s| - 1]
    ensures (|s| == 0 || s[|s| - 1] != c) ==> r == s
  {
    if |s| > 0 && s[|s| - 1] == c then s[..|s| - 1] else s
  }

  /** `lastIndexOf(c)`: the last position of `c`, or -1. */
  function LastIndexOf(s: string, c: char): (r: int)
    ensures -1 <= r < |s|
    ensures r >= 0 ==> s[r] == c
    ensures forall j :: r < j < |s| ==> s[j] != c
    decreases |s|
  {
    if |s| == 0 then -1
    else if s[|s| - 1] == c then |s| - 1
    else
      var r := LastIndexOf(s[..|s| - 1], c);
      r
  }

  /** The last occurrence is the one no later character repeats. */
  lemma {:induction false} LastIndexOfAt(s: string, c: char, k: nat)
    requires k < |s| && s[k] == c
    requires forall j :: k < j < |s| ==> s[j] != c
    ensures LastIndexOf(s, c) == k
    decreases |s|
  {
    if s[|s| - 1] != c {
      LastIndexOfAt(s[..|s| - 1], c, k);
    }
  }

  /** Index of the first non-blank character, or |s| when there is none. */
  function TrimStart(s: string): (k: nat)
    ensures k <= |s|
    ensures forall i :: 0 <= i < k ==> IsBlankChar(s[i])
    ensures k < |s| ==> !IsBlankChar(s[k])
    decreases |s|
  {
    if |s| == 0 || !IsBlankChar(s[0]) then 0 else 1 + TrimStart(s[1..])
  }

  /** One past the last non-blank character, or 0 when there is none. */
  function TrimEnd(s: string): (k: nat)
    ensures k <= |s|
    ensures forall i :: k <= i < |s| ==> IsBlankChar(s[i])
    ensures k > 0 ==> !IsBlankChar(s[k - 1])
    decreases |s|
  {
    if |s| == 0 || !IsBlankChar(s[|s| - 1]) then |s| else TrimEnd(s[..|s| - 1])
  }

  /** `String.trim`: the text between the first and the last character above U+0020. */
  function Trim(s: string): (r: string)
    ensures |r| <= |s|
    ensures |r| > 0 ==> !IsBlankChar(r[0]) && !IsBlankChar(r[|r| - 1])
    ensures (forall i :: 0 <= i < |s| ==> IsBlankChar(s[i])) <==> r == []
    ensures (|s| > 0 && !IsBlankChar(s[0]) && !IsBlankChar(s[|s| - 1])) ==> r == s
  {
    var a := TrimStart(s);
    var b := TrimEnd(s);
    if a < b then s[a..b] else []
  }

  /** `s.replace(c, rep)` for a one-character target. */
  function ReplaceChar(s: string, c: char, rep: string): (r: string)
    ensures c !in rep ==> c !in r
    ensures c !in s ==> r == s
    ensures forall x | x in r :: (x in s && x != c) || x in rep
    decreases |s|
  {
    if |s| == 0 then []
    else (if s[0] == c then rep else [s[0]]) + ReplaceChar(s[1..], c, rep)
  }

  /** Replacing distributes over concatenation. */
  lemma {:induction false} ReplaceCharAppend(a: string, b: string, c: char, rep: string)
    ensures ReplaceChar(a + b, c, rep) == ReplaceChar(a, c, rep) + ReplaceChar(b, c, rep)
    decreases |a|
  {
    if |a| > 0 {
      assert (a + b)[1..] == a[1..] + b;
      ReplaceCharAppend(a[1..], b, c, rep);
    } else {
      assert a + b == b;
    }
  }

  /** With exactly one occurrence of `c`, at `i`, only that character changes. */
  lemma ReplaceCharOnce(s: string, i: nat, c: char, rep: string)
    requires i < |s| && s[i] == c && c !in s[..i] && c !in s[i + 1..]
    ensures ReplaceChar(s, c, rep) == s[..i] + rep + s[i + 1..]
  {
    assert s == s[..i] + ([s[i]] + s[i + 1..]);
    ReplaceCharAppend(s[..i], [s[i]] + s[i + 1..], c, rep);
    ReplaceCharAppend([s[i]], s[i + 1..], c, rep);
  }

  /** The text with every `[` and `]` dropped, the rest kept in order. */
  function Unbracketed(s: string): (r: string)
    ensures |r| <= |s|
    decreases |s|
  {
    if |s| == 0 then []
    else if s[0] == '[' || s[0] == ']' then Unbracketed(s[1..])
    else [s[0]] + Unbracketed(s[1..])
  }

  /** `s.replace("[]", "")`: removes every non-overlapping `[]`, scanning
      left to right. Only brackets go, in pairs, and everything else stays
      in order. */
  function RemoveBracketPairs(s: string): (r: string)
    ensures |r| <= |s|
    ensures Unbracketed(r) == Unbracketed(s)
    ensures '[' !in s ==> r == s
    decreases |s|
  {
    if StartsWith(s, "[]") then
      UnbracketedPair(s);
      RemoveBracketPairs(s[2..])
    else if |s| == 0 then []
    else
      var rest := RemoveBracketPairs(s[1..]);
      UnbracketedCons(s[0], rest);
      UnbracketedCons(s[0], s[1..]);
      assert s == [s[0]] + s[1..];
      [s[0]] + rest
  }

  lemma UnbracketedCons(c: char, t: string)
    ensures Unbracketed([c] + t) == if c == '[' || c == ']' then Unbracketed(t) else [c] + Unbracketed(t)
  {
    assert ([c] + t)[1..] == t;
  }

  lemma UnbracketedPair(s: string)
    requires StartsWith(s, "[]")
    ensures Unbracketed(s) == Unbracketed(s[2..])
  {
    assert s[0] == '[' && s[1] == ']' && s[1..][1..] == s[2..];
  }

  /** The number of `[]` pairs the left-to-right scan of `replace` matches. */
  function MatchedPairs(s: string): nat
    decreases |s|
  {
    if StartsWith(s, "[]") then 1 + MatchedPairs(s[2..])
    else if |s| == 0 then 0
    else MatchedPairs(s[1..])
  }

  /** Brackets are removed two at a time: one pair per match. */
  lemma {:induction false} RemovedInPairs(s: string)
    ensures |s| == |RemoveBracketPairs(s)| + 2 * MatchedPairs(s)
    decreases |s|
  {
    if StartsWith(s, "[]") {
      RemovedInPairs(s[2..]);
    } else if |s| > 0 {
      RemovedInPairs(s[1..]);
    }
  }

  /** A trailing array marker is always removed: the scan cannot match a
      pair that overlaps it. */
  lemma {:induction false} RemoveTrailingMarker(x: string)
    ensures RemoveBracketPairs(x + "[]") == RemoveBracketPairs(x)
    decreases |x|
  {
    var s := x + "[]";
    if |x| == 0 {
      assert s == "[]" && StartsWith(s, "[]") && s[2..] == [];
    } else if |x| == 1 {
      assert s[1] == '[' && s[..2] != "[]";
      assert s[1..] == "[]";
      assert StartsWith(s[1..], "[]") && s[1..][2..] == [];
      assert RemoveBracketPairs(x[1..]) == [];
    } else {
      assert s[..2] == x[..2];
      if StartsWith(x, "[]") {
        assert s[2..] == x[2..] + "[]";
        RemoveTrailingMarker(x[2..]);
      } else {
        assert s[1..] == x[1..] + "[]";
        RemoveTrailingMarker(x[1..]);
      }
    }
  }

  /** The scan does not rescan what a removal exposes: `[[]]` keeps its outer pair. */
  lemma NestedPairKept()
    ensures RemoveBracketPairs("[[]]") == "[]"
  {
    var s := "[[]]";
    assert !StartsWith(s, "[]");
    assert s[1..] == "[]]" && StartsWith(s[1..], "[]");
    assert s[1..][2..] == "]";
    assert !StartsWith("]", "[]") && "]"[1..] == [];
  }

  /** Length of the longest prefix free of `\s` characters. */
  function WordLength(s: string): (k: nat)
    ensures k <= |s|
    ensures forall i :: 0 <= i < k ==> !IsSpace(s[i])
    ensures k < |s| ==> IsSpace(s[k])
    decreases |s|
  {
    if |s| == 0 || IsSpace(s[0]) then 0 else 1 + WordLength(s[1..])
  }

  /** Length of the longest prefix made of `\s` characters. */
  function SpaceLength(s: string): (k: nat)
    ensures k <= |s|
    ensures forall i :: 0 <= i < k ==> IsSpace(s[i])
    ensures k < |s| ==> !IsSpace(s[k])
    decreases |s|
  {
    if |s| == 0 || !IsSpace(s[0]) then 0 else 1 + SpaceLength(s[1..])
  }

  /** The pieces of `s` between maximal runs of `\s`, before Java drops trailing empties. */
  function SplitRuns(s: string): (r: seq<string>)
    ensures |r| > 0
    ensures forall i :: 0 <= i < |r| ==> forall j :: 0 <= j < |r[i]| ==> !IsSpace(r[i][j])
    decreases |s|
  {
    var w := WordLength(s);
    if w == |s| then [s]
    else
      var rest := s[w..];
      var k := SpaceLength(rest);
      [s[..w]] + SplitRuns(rest[k..])
  }

  function DropTrailingEmpty(ws: seq<string>): (r: seq<string>)
    ensures |r| <= |ws| && r == ws[..|r|]
    ensures |r| > 0 ==> r[|r| - 1] != []
    ensures forall i :: |r| <= i < |ws| ==> ws[i] == []
  {
    if |ws| == 0 || ws[|ws| - 1] != [] then ws else DropTrailingEmpty(ws[..|ws| - 1])
  }

  predicate HasSpace(s: string) {
    exists i :: 0 <= i < |s| && IsSpace(s[i])
  }

  /** `s.split("\\s+")`: with no match the input itself, otherwise the pieces
      between runs with trailing empty pieces removed. */
  function SplitOnSpaces(s: string): (r: seq<string>)
    ensures !HasSpace(s) ==> r == [s]
    ensures forall i :: 0 <= i < |r| ==> forall j :: 0 <= j < |r[i]| ==> !IsSpace(r[i][j])
  {
    if !HasSpace(s) then [s] else DropTrailingEmpty(SplitRuns(s))
  }

  /** The pieces between `\s` runs of a string that starts with a non-space
      character are non-empty, except perhaps the last. */
  lemma {:induction false} SplitRunsShape(s: string)
    requires |s| > 0 && !IsSpace(s[0])
    ensures SplitRuns(s)[0] != []
    ensures forall i :: 0 <= i < |SplitRuns(s)| - 1 ==> SplitRuns(s)[i] != []
    decreases |s|
  {
    var w := WordLength(s);
    if w < |s| {
      var rest := s[w..];
      var k := SpaceLength(rest);
      var t := rest[k..];
      assert SplitRuns(s) == [s[..w]] + SplitRuns(t);
      if |t| > 0 {
        SplitRunsShape(t);
        forall i | 0 < i < |SplitRuns(s)| - 1 ensures SplitRuns(s)[i] != [] {
          assert SplitRuns(s)[i] == SplitRuns(t)[i - 1];
        }
      }
    }
  }

  /** `s.trim().split("\\s+")`: the empty string gives one empty word, any
      other trimmed string at least one word and no empty word. */
  lemma SplitTrimmed(x: string)
    ensures Trim(x) == [] ==> SplitOnSpaces(Trim(x)) == [[]]
    ensures Trim(x) != [] ==>
              (|SplitOnSpaces(Trim(x))| > 0 &&
               forall i :: 0 <= i < |SplitOnSpaces(Trim(x))| ==> SplitOnSpaces(Trim(x))[i] != [])
  {
    var s := Trim(x);
    if s != [] {
      assert !IsSpace(s[0]);
      SplitSolidStart(s);
    }
  }

  /** A string that starts with a non-space character splits into at least
      one word, none of them empty. */
  lemma SplitSolidStart(s: string)
    requires |s| > 0 && !IsSpace(s[0])
    ensures |SplitOnSpaces(s)| > 0 && forall i :: 0 <= i < |SplitOnSpaces(s)| ==> SplitOnSpaces(s)[i] != []
  {
    if HasSpace(s) {
      SplitRunsShape(s);
      var ws := SplitRuns(s);
      var r := DropTrailingEmpty(ws);
      assert |r| > 0;
      forall i | 0 <= i < |r| ensures r[i] != [] {
        if i < |r| - 1 { assert r[i] == ws[i]; }
      }
    }
  }

  /** A non-empty string with no character `trim` would strip (hence no `\s`). */
  predicate IsSolid(s: string) {
    |s| > 0 && forall i :: 0 <= i < |s| ==> !IsBlankChar(s[i])
  }

  lemma {:induction false} WordLengthBefore(a: string, b: string)
    requires forall i :: 0 <= i < |a| ==> !IsSpace(a[i])
    requires |b| == 0 || IsSpace(b[0])
    ensures WordLength(a + b) == |a|
    decreases |a|
  {
    if |a| > 0 {
      assert (a + b)[1..] == a[1..] + b;
      WordLengthBefore(a[1..], b);
    } else {
      assert a + b == b;
    }
  }

  /** Two words separated by one space split into exactly those two words. */
  lemma SplitTwoWords(a: string, b: string)
    requires IsSolid(a) && IsSolid(b)
    ensures SplitOnSpaces(a + " " + b) == [a, b]
  {
    var s := a + " " + b;
    assert IsSpace(s[|a|]);
    WordLengthBefore(a, " " + b);
    assert s == a + (" " + b);
    var rest := s[|a|..];
    assert rest == " " + b;
    assert SpaceLength(rest) == 1;
    assert rest[1..] == b;
    WordLengthBefore(b, []);
    assert b + [] == b;
    assert SplitRuns(b) == [b];
    assert SplitRuns(s) == [a, b];
  }

  /** Trimming removes a trailing space after two words. */
  lemma TrimTwoWords(a: string, b: string)
    requires IsSolid(a) && IsSolid(b)
    ensures Trim(a + " " + b + " ") == a + " " + b
  {
    var s := a + " " + b + " ";
    var t := a + " " + b;
    assert s == t + " ";
    assert TrimStart(s) == 0;
    assert TrimEnd(s) == |t|;
    assert s[0..|t|] == t;
  }

  function Concat(ws: seq<string>): (r: string)
    ensures ws == [] ==> r == []
  {
    if |ws| == 0 then [] else ws[0] + Concat(ws[1..])
  }

  /** The letters and digits of `s`, in order. */
  function Alnums(s: string): (r: string)
    ensures forall i :: 0 <= i < |r| ==> IsAsciiAlnum(r[i])
    decreases |s|
  {
    if |s| == 0 then []
    else (if IsAsciiAlnum(s[0]) then [s[0]] else []) + Alnums(s[1..])
  }

  lemma {:induction false} AlnumsAppend(a: string, b: string)
    ensures Alnums(a + b) == Alnums(a) + Alnums(b)
    decreases |a|
  {
    if |a| == 0 {
      assert a + b == b;
    } else {
      assert (a + b)[1..] == a[1..] + b;
      AlnumsAppend(a[1..], b);
    }
  }
}
