/** Text: the string operations the window uses to find blendshapes by
    name. White space is .NET's `Char.IsWhiteSpace`; case-insensitive
    comparison folds ASCII letters only. */
module Text {

  /** `Char.IsWhiteSpace`: the Unicode separators and the control characters
      TAB, LF, VT, FF, CR, NEL. */
  predicate IsWhiteSpace(c: char) {
    || ('\t' <= c <= '\r') || c == ' ' || c == '\U{85}' || c == '\U{A0}' || c == '\U{1680}'
    || ('\U{2000}' <= c <= '\U{200A}') || c == '\U{2028}' || c == '\U{2029}' || c == '\U{202F}'
    || c == '\U{205F}' || c == '\U{3000}'
  }

  /** `string.IsNullOrWhiteSpace` of a non-null string. */
  predicate IsBlank(s: string) {
    forall k :: 0 <= k < |s| ==> IsWhiteSpace(s[k])
  }

  /** The number of white-space characters `s` starts with. */
  function LeadingBlanks(s: string): (n: nat)
    ensures n <= |s| && IsBlank(s[..n])
    ensures n < |s| ==> !IsWhiteSpace(s[n])
  {
    if s == [] || !IsWhiteSpace(s[0]) then 0
    else
      var n := 1 + LeadingBlanks(s[1..]);
      assert forall k :: 1 <= k < n ==> s[..n][k] == s[1..][..n - 1][k - 1];
      n
  }

  /** The number of white-space characters `s` ends with. */
  function TrailingBlanks(s: string): (n: nat)
    ensures n <= |s| && IsBlank(s[|s| - n..])
    ensures n < |s| ==> !IsWhiteSpace(s[|s| - n - 1])
  {
    if s == [] || !IsWhiteSpace(s[|s| - 1]) then 0
    else
      var init := s[..|s| - 1];
      var m := TrailingBlanks(init);
      assert s[|s| - (m + 1)..] == init[|init| - m..] + [s[|s| - 1]];
      BlankConcat(init[|init| - m..], [s[|s| - 1]]);
      assert m < |init| ==> s[|s| - (m + 1) - 1] == init[|init| - m - 1];
      m + 1
  }

  /** `string.Trim()`: `s` without its leading and trailing white space. */
  function Trim(s: string): string {
    var a := LeadingBlanks(s);
    var rest := s[a..];
    rest[..|rest| - TrailingBlanks(rest)]
  }

  /** What trimming leaves is the piece of `s` between a blank prefix and a
      blank suffix. */
  lemma TrimIsMiddle(s: string)
    ensures var r := Trim(s);
      exists a :: 0 <= a && a + |r| <= |s| && s[a..a + |r|] == r && IsBlank(s[..a]) && IsBlank(s[a + |r|..])
  {
    var a := LeadingBlanks(s);
    var rest := s[a..];
    var b := TrailingBlanks(rest);
    var r := Trim(s);
    assert r == s[a..a + |r|];
    assert s[a + |r|..] == rest[|rest| - b..];
  }

  /** Trimming leaves nothing exactly when `s` is blank. */
  lemma TrimEmptyIffBlank(s: string)
    ensures Trim(s) == [] <==> IsBlank(s)
  {
    if Trim(s) == [] {
      TrimEmptyIsBlank(s);
    }
    if IsBlank(s) {
      LeadingBlanksOfBlank(s);
    }
  }

  lemma TrimEmptyIsBlank(s: string)
    requires Trim(s) == []
    ensures IsBlank(s)
  {
    var a := LeadingBlanks(s);
    var rest := s[a..];
    var b := TrailingBlanks(rest);
    assert |rest| - b == |Trim(s)| == 0;
    assert IsBlank(rest) by {
      assert rest[|rest| - b..] == rest;
    }
    assert s == s[..a] + rest;
    BlankConcat(s[..a], rest);
  }

  /** A blank string is all leading blanks, so it trims to nothing. */
  lemma {:induction false} LeadingBlanksOfBlank(s: string)
    requires IsBlank(s)
    ensures LeadingBlanks(s) == |s|
    decreases |s|
  {
    if s != [] {
      assert IsWhiteSpace(s[0]);
      assert IsBlank(s[1..]) by {
        forall k | 0 <= k < |s[1..]| ensures IsWhiteSpace(s[1..][k]) {
          assert s[1..][k] == s[k + 1];
        }
      }
      LeadingBlanksOfBlank(s[1..]);
    }
  }

  lemma BlankConcat(x: string, y: string)
    requires IsBlank(x) && IsBlank(y)
    ensures IsBlank(x + y)
  {
    forall k | 0 <= k < |x + y| ensures IsWhiteSpace((x + y)[k]) {
      if k >= |x| {
        assert (x + y)[k] == y[k - |x|];
      }
    }
  }

  /** A non-empty trimmed string starts and ends with a non-blank character. */
  lemma TrimEnds(s: string)
    ensures var r := Trim(s); r != [] ==> !IsWhiteSpace(r[0]) && !IsWhiteSpace(r[|r| - 1])
  {
    var a := LeadingBlanks(s);
    var rest := s[a..];
    var b := TrailingBlanks(rest);
    var r := Trim(s);
    assert r == rest[..|rest| - b];
    if r != [] {
      assert a < |s| && b < |rest|;
      assert r[0] == s[a];
      assert r[|r| - 1] == rest[|rest| - b - 1];
    }
  }

  /** Trimming removes exactly a blank prefix and a blank suffix: what is left
      is a piece of `s`, empty exactly when `s` is blank, and otherwise starts
      and ends with a character that is not white space. */
  lemma TrimSpec(s: string)
    ensures var r := Trim(s);
      && (exists a :: 0 <= a && a + |r| <= |s| && s[a..a + |r|] == r && IsBlank(s[..a]) && IsBlank(s[a + |r|..]))
      && (r == [] <==> IsBlank(s))
      && (r != [] ==> !IsWhiteSpace(r[0]) && !IsWhiteSpace(r[|r| - 1]))
  {
    TrimIsMiddle(s);
    TrimEmptyIffBlank(s);
    TrimEnds(s);
  }

  /** Trimming a trimmed string changes nothing. */
  lemma TrimIdempotent(s: string)
    ensures Trim(Trim(s)) == Trim(s)
  {
    TrimSpec(s);
    var r := Trim(s);
    if r != [] {
      assert LeadingBlanks(r) == 0;
      assert r[0..] == r;
      assert TrailingBlanks(r) == 0;
    }
  }

  /** Case folding of one character (ASCII letters only). */
  function Fold(c: char): char {
    if 'A' <= c <= 'Z' then (c as int + 32) as char else c
  }

  function FoldAll(s: string): string {
    seq(|s|, k requires 0 <= k < |s| => Fold(s[k]))
  }

  lemma FoldCons(s: string)
    requires s != []
    ensures FoldAll(s) == [Fold(s[0])] + FoldAll(s[1..])
  {
  }

  /** `p` occurs in `s` at some position. */
  predicate IsInfix(p: string, s: string)
    decreases |s|
  {
    p <= s || (s != [] && IsInfix(p, s[1..]))
  }

  /** `p` occurs in `s` starting at position `a`. */
  predicate OccursAt(p: string, s: string, a: int) {
    0 <= a && a + |p| <= |s| && s[a..a + |p|] == p
  }

  /** The recursive search only succeeds where `p` occurs. */
  lemma {:induction false} IsInfixOccurs(p: string, s: string)
    requires IsInfix(p, s)
    ensures exists a :: OccursAt(p, s, a)
    decreases |s|
  {
    if p <= s {
      assert OccursAt(p, s, 0);
    } else {
      IsInfixOccurs(p, s[1..]);
      var a :| OccursAt(p, s[1..], a);
      assert s[a + 1..a + 1 + |p|] == s[1..][a..a + |p|];
      assert OccursAt(p, s, a + 1);
    }
  }

  /** The recursive search finds every occurrence's string. */
  lemma {:induction false} OccursIsInfix(p: string, s: string, a: int)
    requires OccursAt(p, s, a)
    ensures IsInfix(p, s)
    decreases a
  {
    if a == 0 {
      assert p <= s;
    } else {
      assert s[1..][a - 1..a - 1 + |p|] == s[a..a + |p|];
      assert OccursAt(p, s[1..], a - 1);
      OccursIsInfix(p, s[1..], a - 1);
    }
  }

  /** The recursive search finds `p` exactly when it occurs at some position. */
  lemma IsInfixAt(p: string, s: string)
    ensures IsInfix(p, s) <==> exists a :: OccursAt(p, s, a)
  {
    if IsInfix(p, s) {
      IsInfixOccurs(p, s);
    }
    if exists a :: OccursAt(p, s, a) {
      var a :| OccursAt(p, s, a);
      OccursIsInfix(p, s, a);
    }
  }

  /** `s.IndexOf(p, StringComparison.OrdinalIgnoreCase) >= 0`. */
  predicate ContainsIgnoreCase(s: string, p: string) {
    IsInfix(FoldAll(p), FoldAll(s))
  }

  /** Whether `s` matches the pattern the window builds from a query with a
      `*`: `"^" + Regex.Escape(q).Replace("\\*", ".*") + "$"` with
      `RegexOptions.IgnoreCase`. Every character but `*` is a literal, `*`
      matches any run of characters other than a line feed (`.`), and the end
      anchor also matches just before a final line feed. */
  predicate GlobMatches(pat: string, s: string)
    decreases |pat| + |s|
  {
    if pat == [] then s == [] || s == "\n"
    else if pat[0] == '*' then
      GlobMatches(pat[1..], s) || (s != [] && s[0] != '\n' && GlobMatches(pat, s[1..]))
    else
      s != [] && Fold(pat[0]) == Fold(s[0]) && GlobMatches(pat[1..], s[1..])
  }

  /** No line feed except possibly a final one. */
  predicate OneLine(s: string) {
    forall k :: 0 <= k < |s| - 1 ==> s[k] != '\n'
  }

  /** A lone `*` matches exactly the names that are one line. */
  lemma {:induction false} GlobStarMatchesOneLine(s: string)
    ensures GlobMatches("*", s) <==> OneLine(s)
    decreases |s|
  {
    assert "*"[1..] == [];
    if s != [] {
      GlobStarMatchesOneLine(s[1..]);
      if OneLine(s) && |s| > 1 {
        assert forall k :: 0 <= k < |s[1..]| - 1 ==> s[1..][k] == s[k + 1];
        assert s[0] != '\n';
      }
      if s[0] != '\n' && OneLine(s[1..]) {
        assert forall k :: 1 <= k < |s| - 1 ==> s[k] == s[1..][k - 1];
      }
    }
  }

  /** Without a `*`, a pattern matches the names equal to it up to case,
      possibly followed by one line feed. */
  lemma {:induction false} GlobLiteral(pat: string, s: string)
    requires forall k :: 0 <= k < |pat| ==> pat[k] != '*'
    ensures GlobMatches(pat, s) <==>
              FoldAll(s) == FoldAll(pat) || (|s| == |pat| + 1 && FoldAll(s[..|pat|]) == FoldAll(pat) && s[|pat|] == '\n')
    decreases |pat|
  {
    if pat != [] && s != [] {
      var p1, s1 := pat[1..], s[1..];
      GlobLiteral(p1, s1);
      FoldCons(pat);
      FoldCons(s);
      if |s| == |pat| + 1 {
        var pre := s[..|pat|];
        assert pre[0] == s[0] && pre[1..] == s1[..|p1|];
        FoldCons(pre);
        assert s1[|p1|] == s[|pat|];
        if FoldAll(pre) == FoldAll(pat) {
          assert FoldAll(pre)[0] == FoldAll(pat)[0];
          assert FoldAll(pre)[1..] == FoldAll(pat)[1..];
        }
      } else if FoldAll(s) == FoldAll(pat) {
        assert FoldAll(s)[0] == FoldAll(pat)[0];
        assert FoldAll(s)[1..] == FoldAll(pat)[1..];
      }
    } else if pat == [] {
      if |s| == 1 && s[0] == '\n' { assert s == "\n"; }
    }
  }

  /** The delimiters of the bulk-paste box. */
  predicate IsBulkDelimiter(c: char) {
    c == '\n' || c == '\r' || c == ',' || c == ';' || c == '\t'
  }

  /** `s.Split(delimiters)`: the pieces between delimiters, empty ones included. */
  function Pieces(s: string): (r: seq<string>)
    ensures |r| >= 1
    decreases |s|
  {
    if s == [] then [""]
    else
      var rest := Pieces(s[1..]);
      if IsBulkDelimiter(s[0]) then [""] + rest else [[s[0]] + rest[0]] + rest[1..]
  }

  function Concat(ps: seq<string>): string
    decreases |ps|
  {
    if ps == [] then [] else ps[0] + Concat(ps[1..])
  }

  function WithoutDelimiters(s: string): string
    decreases |s|
  {
    if s == [] then [] else (if IsBulkDelimiter(s[0]) then [] else [s[0]]) + WithoutDelimiters(s[1..])
  }

  predicate NoDelimiter(s: string) {
    forall k :: 0 <= k < |s| ==> !IsBulkDelimiter(s[k])
  }

  /** The delimiters of `s`, in order. */
  function Delimiters(s: string): string
    decreases |s|
  {
    if s == [] then [] else (if IsBulkDelimiter(s[0]) then [s[0]] else []) + Delimiters(s[1..])
  }

  /** The pieces `ps` joined with `ds[j]` between pieces `j` and `j + 1`. */
  function Rejoin(ps: seq<string>, ds: string): string
    requires |ps| == |ds| + 1
    decreases |ds|
  {
    if ds == [] then ps[0] else ps[0] + [ds[0]] + Rejoin(ps[1..], ds[1..])
  }

  /** Prefixing the first piece with `c` prefixes the joined string with `c`. */
  lemma RejoinPrepend(c: char, ps: seq<string>, ds: string)
    requires |ps| == |ds| + 1
    ensures Rejoin([[c] + ps[0]] + ps[1..], ds) == [c] + Rejoin(ps, ds)
  {
    var qs := [[c] + ps[0]] + ps[1..];
    assert qs[0] == [c] + ps[0] && qs[1..] == ps[1..];
  }

  /** Splitting cuts exactly at the delimiters: there is one piece more than
      there are delimiters, and joining the pieces with the input's
      delimiters, in order, gives back the input. */
  lemma {:induction false} PiecesRejoin(s: string)
    ensures |Pieces(s)| == |Delimiters(s)| + 1
    ensures Rejoin(Pieces(s), Delimiters(s)) == s
    decreases |s|
  {
    if s != [] {
      PiecesRejoin(s[1..]);
      var rest, ds := Pieces(s[1..]), Delimiters(s[1..]);
      if IsBulkDelimiter(s[0]) {
        var ps := [""] + rest;
        assert Pieces(s) == ps && Delimiters(s) == [s[0]] + ds;
        assert ps[0] == "" && ps[1..] == rest;
        assert ([s[0]] + ds)[0] == s[0] && ([s[0]] + ds)[1..] == ds;
        assert s == [s[0]] + s[1..];
      } else {
        assert Pieces(s) == [[s[0]] + rest[0]] + rest[1..] && Delimiters(s) == ds;
        RejoinPrepend(s[0], rest, ds);
        assert s == [s[0]] + s[1..];
      }
    }
  }

  /** Splitting loses nothing but the delimiters: no piece holds one, the
      pieces run together give back the input with its delimiters removed,
      and the cuts fall exactly at the delimiters. */
  lemma {:induction false} PiecesSpec(s: string)
    ensures forall j :: 0 <= j < |Pieces(s)| ==> NoDelimiter(Pieces(s)[j])
    ensures Concat(Pieces(s)) == WithoutDelimiters(s)
    ensures |Pieces(s)| == |Delimiters(s)| + 1 && Rejoin(Pieces(s), Delimiters(s)) == s
    decreases |s|
  {
    PiecesRejoin(s);
    if s != [] {
      PiecesSpec(s[1..]);
      var rest := Pieces(s[1..]);
      assert Concat(rest) == rest[0] + Concat(rest[1..]);
      if IsBulkDelimiter(s[0]) {
        assert Concat([""] + rest) == "" + Concat(rest);
      } else {
        var r := Pieces(s);
        assert r == [[s[0]] + rest[0]] + rest[1..];
        assert r[1..] == rest[1..];
        assert Concat(r) == [s[0]] + rest[0] + Concat(rest[1..]);
        forall j | 0 <= j < |r| ensures NoDelimiter(r[j]) {
          if j == 0 {
            assert NoDelimiter(rest[0]);
          } else {
            assert r[j] == rest[j];
          }
        }
      }
    }
  }

  /** `a` can be obtained from `b` by deleting elements. */
  predicate IsSubsequence(a: seq<string>, b: seq<string>)
    decreases |b|
  {
    a == [] || (b != [] && if a[0] == b[0] then IsSubsequence(a[1..], b[1..]) else IsSubsequence(a, b[1..]))
  }

  /** `StringSplitOptions.RemoveEmptyEntries` and `.Where(t => t.Length > 0)`:
      the non-empty pieces, in their order, each as often as it occurs. */
  function DropEmpty(ps: seq<string>): (r: seq<string>)
    ensures forall x :: x in r <==> x in ps && x != []
    ensures IsSubsequence(r, ps)
    decreases |ps|
  {
    if ps == [] then []
    else
      var rest := DropEmpty(ps[1..]);
      if ps[0] == [] then
        assert rest != [] ==> rest[0] in rest;
        rest
      else
        assert ([ps[0]] + rest)[1..] == rest;
        [ps[0]] + rest
  }

  /** Dropping the empty pieces keeps every non-empty piece as often as it
      occurs, and no empty one. */
  lemma {:induction false} DropEmptyCounts(ps: seq<string>)
    ensures multiset(DropEmpty(ps)) == multiset(ps)[[] := 0]
    decreases |ps|
  {
    if ps != [] {
      DropEmptyCounts(ps[1..]);
      assert ps == [ps[0]] + ps[1..];
    }
  }

  /** `.Select(t => t.Trim())`. */
  function TrimAll(ps: seq<string>): (r: seq<string>)
    ensures |r| == |ps|
    decreases |ps|
  {
    if ps == [] then [] else [Trim(ps[0])] + TrimAll(ps[1..])
  }

  predicate NoDuplicates(ts: seq<string>) {
    forall a, b :: 0 <= a < b < |ts| ==> ts[a] != ts[b]
  }

  /** `.Distinct()`: each value once, at the position of its first occurrence. */
  function Distinct(ts: seq<string>): (r: seq<string>)
    ensures NoDuplicates(r)
    ensures forall x :: x in r <==> x in ts
    decreases |ts|
  {
    if ts == [] then []
    else
      var d := Distinct(ts[..|ts| - 1]);
      var x := ts[|ts| - 1];
      assert forall y :: y in ts <==> y in ts[..|ts| - 1] || y == x;
      if x in d then d else d + [x]
  }

  /** The names pasted into the bulk box: split at the delimiters, trimmed,
      empty ones dropped, duplicates removed. */
  function BulkTokens(input: string): seq<string> {
    Distinct(DropEmpty(TrimAll(DropEmpty(Pieces(input)))))
  }

  /** A trimmed piece is exactly the trim of some piece. */
  lemma {:induction false} TrimAllMembers(ps: seq<string>, t: string)
    ensures t in TrimAll(ps) <==> exists p :: p in ps && Trim(p) == t
    decreases |ps|
  {
    if ps != [] {
      TrimAllMembers(ps[1..], t);
      assert TrimAll(ps) == [Trim(ps[0])] + TrimAll(ps[1..]);
      assert forall p :: p in ps <==> p == ps[0] || p in ps[1..];
    }
  }

  /** `t` is the non-empty trim of some piece of `input`. */
  predicate TrimmedPiece(input: string, t: string) {
    t != [] && exists p :: p in Pieces(input) && Trim(p) == t
  }

  /** `t` is not empty, holds no delimiter and neither starts nor ends with
      white space. */
  predicate TokenShaped(t: string) {
    t != [] && NoDelimiter(t) && !IsWhiteSpace(t[0]) && !IsWhiteSpace(t[|t| - 1])
  }

  /** A token is exactly the non-empty trim of some piece of the input. */
  lemma BulkTokenMember(input: string, t: string)
    ensures t in BulkTokens(input) <==> TrimmedPiece(input, t)
  {
    var ps := Pieces(input);
    TrimAllMembers(DropEmpty(ps), t);
    if TrimmedPiece(input, t) {
      var p :| p in ps && Trim(p) == t;
      assert p != [];
      assert p in DropEmpty(ps);
    }
  }

  /** Every token has the shape of a trimmed, delimiter-free name. */
  lemma BulkTokenShape(input: string, t: string)
    requires t in BulkTokens(input)
    ensures TokenShaped(t)
  {
    BulkTokenMember(input, t);
    var p :| p in Pieces(input) && Trim(p) == t;
    PieceHasNoDelimiter(input, p);
    TrimmedShape(p);
  }

  lemma PieceHasNoDelimiter(s: string, p: string)
    requires p in Pieces(s)
    ensures NoDelimiter(p)
  {
    var j :| 0 <= j < |Pieces(s)| && Pieces(s)[j] == p;
    PiecesSpec(s);
  }

  lemma TrimmedShape(p: string)
    requires NoDelimiter(p) && Trim(p) != []
    ensures TokenShaped(Trim(p))
  {
    TrimKeepsNoDelimiter(p);
    TrimSpec(p);
  }

  lemma TrimKeepsNoDelimiter(p: string)
    requires NoDelimiter(p)
    ensures NoDelimiter(Trim(p))
  {
    var rest := p[LeadingBlanks(p)..];
    assert NoDelimiter(rest);
  }

  /** The bulk tokens: distinct, each a non-empty trimmed piece of the input
      with no delimiter in it, and every piece that is not blank contributes
      its trimmed self. */
  lemma BulkTokensSpec(input: string)
    ensures NoDuplicates(BulkTokens(input))
    ensures forall j :: 0 <= j < |BulkTokens(input)| ==> TokenShaped(BulkTokens(input)[j])
    ensures forall t :: t in BulkTokens(input) <==> TrimmedPiece(input, t)
  {
    var r := BulkTokens(input);
    forall t ensures t in r <==> TrimmedPiece(input, t) {
      BulkTokenMember(input, t);
    }
    forall j | 0 <= j < |r| ensures TokenShaped(r[j]) {
      BulkTokenShape(input, r[j]);
    }
  }

  /** `Array.FindIndex(names, n => n == t)`: the first position holding `t`, or -1. */
  function FindIndex(names: seq<string>, t: string): (r: int)
    ensures -1 <= r < |names|
    ensures r == -1 <==> t !in names
    ensures r >= 0 ==> names[r] == t && forall j :: 0 <= j < r ==> names[j] != t
    decreases |names|
  {
    if names == [] then -1
    else if names[0] == t then 0
    else
      var k := FindIndex(names[1..], t);
      assert forall j :: 1 <= j < |names| ==> names[j] == names[1..][j - 1];
      if k < 0 then -1 else k + 1
  }

  /** `Enumerable.Range(0, names.Length).Where(i => matches(names[i]))`:
      the positions whose name matches, in increasing order. */
  function MatchingIndices(names: seq<string>, matches: string -> bool): (r: seq<int>)
    ensures forall j :: 0 <= j < |r| ==> 0 <= r[j] < |names| && matches(names[r[j]])
    ensures forall i :: 0 <= i < |names| && matches(names[i]) ==> i in r
    ensures forall a, b :: 0 <= a < b < |r| ==> r[a] < r[b]
    decreases |names|
  {
    if names == [] then []
    else
      var n := |names| - 1;
      var init := names[..n];
      var r0 := MatchingIndices(init, matches);
      assert forall i :: 0 <= i < n ==> names[i] == init[i];
      r0 + if matches(names[n]) then [n] else []
  }

  /** The positions whose name contains `needle`, ignoring case, in order. */
  function ContainingIndices(names: seq<string>, needle: string): (r: seq<int>)
    ensures forall i :: i in r <==> 0 <= i < |names| && ContainsIgnoreCase(names[i], needle)
    ensures forall a, b :: 0 <= a < b < |r| ==> r[a] < r[b]
  {
    MatchingIndices(names, name => ContainsIgnoreCase(name, needle))
  }

  /** The positions whose whole name matches the wildcard pattern, in order. */
  function WildcardIndices(names: seq<string>, pattern: string): (r: seq<int>)
    ensures forall i :: i in r <==> 0 <= i < |names| && GlobMatches(pattern, names[i])
    ensures forall a, b :: 0 <= a < b < |r| ==> r[a] < r[b]
  {
    MatchingIndices(names, name => GlobMatches(pattern, name))
  }

  /** How many of the tokens name a blendshape. */
  function FoundCount(ts: seq<string>, names: seq<string>): (n: nat)
    ensures n <= |ts|
    decreases |ts|
  {
    if ts == [] then 0
    else FoundCount(ts[..|ts| - 1], names) + if ts[|ts| - 1] in names then 1 else 0
  }

  /** The blendshape positions the tokens select: for each token that names a
      blendshape, the first position with that name. */
  function FoundIndices(ts: seq<string>, names: seq<string>): (r: set<int>)
    ensures forall i :: i in r <==> 0 <= i < |names| && names[i] in ts && FindIndex(names, names[i]) == i
    decreases |ts|
  {
    if ts == [] then {}
    else
      var init, t := ts[..|ts| - 1], ts[|ts| - 1];
      assert forall x :: x in ts <==> x in init || x == t;
      FoundIndices(init, names) + if t in names then {FindIndex(names, t)} else {}
  }

  /** Looking one more token up extends the count and the selected positions
      by that token's outcome. */
  lemma FoundStep(ts: seq<string>, t: string, names: seq<string>)
    ensures FoundCount(ts + [t], names) == FoundCount(ts, names) + if t in names then 1 else 0
    ensures FoundIndices(ts + [t], names) == FoundIndices(ts, names) + if t in names then {FindIndex(names, t)} else {}
  {
    assert (ts + [t])[..|ts|] == ts;
  }
}
