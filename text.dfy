/** The .NET string operations the scraper relies on, over `seq<char>`. */
module Text {
  import opened Wrappers

  /** `char.IsWhiteSpace`: the Unicode space separators, line and paragraph separators,
      and the control characters U+0009..U+000D and U+0085. */
  predicate IsWhiteSpace(c: char) {
    ('\t' <= c <= '\r') || c == ' ' || c == '\U{0085}' || c == '\U{00A0}' || c == '\U{1680}'
    || ('\U{2000}' <= c <= '\U{200A}') || c == '\U{2028}' || c == '\U{2029}'
    || c == '\U{202F}' || c == '\U{205F}' || c == '\U{3000}'
  }

  predicate AllWhiteSpace(s: string) {
    forall i :: 0 <= i < |s| ==> IsWhiteSpace(s[i])
  }

  /** `string.IsNullOrWhiteSpace`. */
  predicate IsNullOrWhiteSpace(s: Option<string>) {
    s.None? || AllWhiteSpace(s.value)
  }

  /** Number of white-space characters at the start of `s`. */
  function LeadingWhite(s: string): (k: nat)
    ensures k <= |s|
    ensures forall i :: 0 <= i < k ==> IsWhiteSpace(s[i])
    ensures k < |s| ==> !IsWhiteSpace(s[k])
  {
    if |s| > 0 && IsWhiteSpace(s[0]) then 1 + LeadingWhite(s[1..]) else 0
  }

  /** Length of `s` once the white-space characters at its end are dropped. */
  function TrailingStart(s: string): (k: nat)
    ensures k <= |s|
    ensures forall i :: k <= i < |s| ==> IsWhiteSpace(s[i])
    ensures k > 0 ==> !IsWhiteSpace(s[k - 1])
  {
    if |s| > 0 && IsWhiteSpace(s[|s| - 1]) then TrailingStart(s[..|s| - 1]) else |s|
  }

  /** `string.Trim()`: `TrimStart()` then `TrimEnd()`. */
  function Trim(s: string): (r: string)
    ensures |r| <= |s|
  {
    var t := s[LeadingWhite(s)..];
    t[..TrailingStart(t)]
  }

  /** A trimmed string is the slice `s[a..b]` with only white space cut off either
      side, and it neither starts nor ends with white space. */
  lemma TrimSlice(s: string) returns (a: nat, b: nat)
    ensures a <= b <= |s| && Trim(s) == s[a..b]
    ensures AllWhiteSpace(s[..a]) && AllWhiteSpace(s[b..])
    ensures Trim(s) == [] || (!IsWhiteSpace(Trim(s)[0]) && !IsWhiteSpace(Trim(s)[|Trim(s)| - 1]))
  {
    a := LeadingWhite(s);
    var t := s[a..];
    b := a + TrailingStart(t);
    assert t[..TrailingStart(t)] == s[a..b];
    forall i | 0 <= i < |s| - b ensures IsWhiteSpace(s[b..][i]) {
      assert s[b..][i] == t[b - a + i];
    }
  }

  /** Trimming leaves nothing exactly when the string is blank. */
  lemma TrimEmptyIffBlank(s: string)
    ensures Trim(s) == [] <==> AllWhiteSpace(s)
  {
    var a, b := TrimSlice(s);
    if Trim(s) == [] {
      forall i | 0 <= i < |s| ensures IsWhiteSpace(s[i]) {
        if i < a { assert s[i] == s[..a][i]; } else { assert s[i] == s[b..][i - b]; }
      }
    }
  }

  /** Trimming is idempotent. */
  lemma TrimIdempotent(s: string)
    ensures Trim(Trim(s)) == Trim(s)
  {
    var a, b := TrimSlice(s);
  }

  /** The characters of `s` that satisfy `keep`, in order: `Regex.Replace(s, "[^…]", "")`
      and `s.Replace("%", "")` are both of this form. */
  function Filter(s: string, keep: char -> bool): (r: string)
    ensures |r| <= |s|
    ensures forall i :: 0 <= i < |r| ==> keep(r[i])
  {
    if s == [] then [] else (if keep(s[0]) then [s[0]] else []) + Filter(s[1..], keep)
  }

  /** Number of occurrences of `c` in `s`. */
  function Count(s: string, c: char): nat {
    if s == [] then 0 else (if s[0] == c then 1 else 0) + Count(s[1..], c)
  }

  lemma {:induction false} CountAppend(a: string, b: string, c: char)
    ensures Count(a + b, c) == Count(a, c) + Count(b, c)
  {
    if a != [] {
      assert (a + b)[1..] == a[1..] + b;
      CountAppend(a[1..], b, c);
    } else {
      assert a + b == b;
    }
  }

  lemma {:induction false} CountZeroIffAbsent(s: string, c: char)
    ensures Count(s, c) == 0 <==> c !in s
  {
    if s != [] {
      CountZeroIffAbsent(s[1..], c);
      assert s == [s[0]] + s[1..];
    }
  }

  /** Filtering keeps every occurrence of a kept character and drops every other. */
  lemma {:induction false} FilterCount(s: string, keep: char -> bool, c: char)
    ensures Count(Filter(s, keep), c) == if keep(c) then Count(s, c) else 0
  {
    if s != [] {
      FilterCount(s[1..], keep, c);
      CountAppend(if keep(s[0]) then [s[0]] else [], Filter(s[1..], keep), c);
    }
  }

  /** `s.Split(sep)`: every piece, including empty ones. */
  function Split(s: string, sep: char): (r: seq<string>)
    ensures |r| >= 1
  {
    if s == [] then [""]
    else if s[0] == sep then [""] + Split(s[1..], sep)
    else var rest := Split(s[1..], sep); [[s[0]] + rest[0]] + rest[1..]
  }

  /** `string.Join(sep, pieces)`. */
  function Join(pieces: seq<string>, sep: char): string
    requires |pieces| >= 1
  {
    if |pieces| == 1 then pieces[0] else pieces[0] + [sep] + Join(pieces[1..], sep)
  }

  /** No piece of a split holds the separator. */
  lemma {:induction false} SplitPiecesFree(s: string, sep: char)
    ensures forall i :: 0 <= i < |Split(s, sep)| ==> sep !in Split(s, sep)[i]
  {
    if s != [] {
      SplitPiecesFree(s[1..], sep);
    }
  }

  /** Joining the pieces of a split gives back the string. */
  lemma {:induction false} JoinSplit(s: string, sep: char)
    ensures Join(Split(s, sep), sep) == s
  {
    if s != [] {
      var rest := Split(s[1..], sep);
      JoinSplit(s[1..], sep);
      if s[0] == sep {
        JoinCons("", rest, sep);
      } else {
        JoinExtendHead(s[0], rest, sep);
      }
      assert s == [s[0]] + s[1..];
    }
  }

  lemma JoinCons(x: string, pieces: seq<string>, sep: char)
    requires |pieces| >= 1
    ensures Join([x] + pieces, sep) == x + [sep] + Join(pieces, sep)
  {
    assert ([x] + pieces)[1..] == pieces;
  }

  /** Putting a character in front of the first piece puts it in front of the join. */
  lemma JoinExtendHead(c: char, pieces: seq<string>, sep: char)
    requires |pieces| >= 1
    ensures Join([[c] + pieces[0]] + pieces[1..], sep) == [c] + Join(pieces, sep)
  {
    var r := [[c] + pieces[0]] + pieces[1..];
    assert r[0] == [c] + pieces[0] && r[1..] == pieces[1..];
    if |pieces| > 1 {
      var tail := [sep] + Join(pieces[1..], sep);
      assert Join(pieces, sep) == pieces[0] + tail;
      assert Join(r, sep) == ([c] + pieces[0]) + tail;
      AppendAssoc([c], pieces[0], tail);
    }
  }

  /** Splitting a join of separator-free pieces gives back the pieces. */
  lemma {:induction false} SplitJoin(pieces: seq<string>, sep: char)
    requires |pieces| >= 1
    requires forall i :: 0 <= i < |pieces| ==> sep !in pieces[i]
    ensures Split(Join(pieces, sep), sep) == pieces
  {
    if |pieces| == 1 {
      SplitFree(pieces[0], sep);
    } else {
      SplitJoin(pieces[1..], sep);
      SplitPrefix(pieces[0], Join(pieces[1..], sep), sep);
      assert pieces == [pieces[0]] + pieces[1..];
    }
  }

  lemma {:induction false} SplitFree(s: string, sep: char)
    requires sep !in s
    ensures Split(s, sep) == [s]
  {
    if s != [] {
      SplitFree(s[1..], sep);
      assert s == [s[0]] + s[1..];
    }
  }

  lemma {:induction false} SplitPrefix(a: string, b: string, sep: char)
    requires sep !in a
    ensures Split(a + [sep] + b, sep) == [a] + Split(b, sep)
  {
    if a == [] {
      assert a + [sep] + b == [sep] + b;
      assert ([sep] + b)[1..] == b;
    } else {
      assert (a + [sep] + b)[1..] == a[1..] + [sep] + b;
      SplitPrefix(a[1..], b, sep);
      assert a == [a[0]] + a[1..];
    }
  }

  /** The non-empty pieces, in order: `StringSplitOptions.RemoveEmptyEntries`. */
  function NonEmpty(pieces: seq<string>): (r: seq<string>)
    ensures |r| <= |pieces|
    ensures forall i :: 0 <= i < |r| ==> r[i] != [] && r[i] in pieces
  {
    if pieces == [] then []
    else (if pieces[0] == [] then [] else [pieces[0]]) + NonEmpty(pieces[1..])
  }

  /** `s.Split(sep, StringSplitOptions.RemoveEmptyEntries)`. */
  function SplitRemoveEmpty(s: string, sep: char): seq<string> {
    NonEmpty(Split(s, sep))
  }

  /** The pieces of a split without empty entries are non-empty, separator-free,
      and together hold exactly the characters of `s` other than the separator. */
  lemma SplitRemoveEmptySpec(s: string, sep: char)
    ensures forall i :: 0 <= i < |SplitRemoveEmpty(s, sep)| ==>
      SplitRemoveEmpty(s, sep)[i] != [] && sep !in SplitRemoveEmpty(s, sep)[i]
    ensures Concat(SplitRemoveEmpty(s, sep)) == Filter(s, IsNot(sep))
  {
    SplitPiecesFree(s, sep);
    ConcatNonEmpty(Split(s, sep));
    JoinFilter(Split(s, sep), sep);
    JoinSplit(s, sep);
  }

  function Concat(pieces: seq<string>): string {
    if pieces == [] then [] else pieces[0] + Concat(pieces[1..])
  }

  lemma {:induction false} ConcatNonEmpty(pieces: seq<string>)
    ensures Concat(NonEmpty(pieces)) == Concat(pieces)
  {
    if pieces != [] {
      ConcatNonEmpty(pieces[1..]);
      ConcatAppend(if pieces[0] == [] then [] else [pieces[0]], NonEmpty(pieces[1..]));
    }
  }

  lemma {:induction false} ConcatAppend(a: seq<string>, b: seq<string>)
    ensures Concat(a + b) == Concat(a) + Concat(b)
  {
    if a != [] {
      assert (a + b)[1..] == a[1..] + b;
      ConcatAppend(a[1..], b);
    } else {
      assert a + b == b;
    }
  }

  lemma AppendAssoc<T>(a: seq<T>, b: seq<T>, c: seq<T>)
    ensures (a + b) + c == a + (b + c)
  {
  }

  lemma {:induction false} FilterAppend(a: string, b: string, keep: char -> bool)
    ensures Filter(a + b, keep) == Filter(a, keep) + Filter(b, keep)
  {
    if a != [] {
      var head := if keep(a[0]) then [a[0]] else [];
      assert (a + b)[0] == a[0] && (a + b)[1..] == a[1..] + b;
      assert Filter(a + b, keep) == head + Filter(a[1..] + b, keep);
      FilterAppend(a[1..], b, keep);
      assert Filter(a, keep) == head + Filter(a[1..], keep);
      AppendAssoc(head, Filter(a[1..], keep), Filter(b, keep));
    } else {
      assert a + b == b;
    }
  }

  lemma {:induction false} FilterAll(s: string, keep: char -> bool)
    requires forall i :: 0 <= i < |s| ==> keep(s[i])
    ensures Filter(s, keep) == s
  {
    if s != [] {
      FilterAll(s[1..], keep);
    }
  }

  /** The test that keeps every character but `sep`. */
  function IsNot(sep: char): char -> bool {
    c => c != sep
  }

  /** Dropping the separators from a join of separator-free pieces concatenates them. */
  lemma {:induction false} JoinFilter(pieces: seq<string>, sep: char)
    requires |pieces| >= 1
    requires forall i :: 0 <= i < |pieces| ==> sep !in pieces[i]
    ensures Filter(Join(pieces, sep), IsNot(sep)) == Concat(pieces)
  {
    if |pieces| > 1 {
      JoinFilter(pieces[1..], sep);
      JoinFilterStep(pieces[0], Join(pieces[1..], sep), sep);
    } else {
      FilterNoSep(pieces[0], sep);
      assert Concat(pieces[1..]) == [];
    }
  }

  lemma JoinFilterStep(a: string, rest: string, sep: char)
    requires sep !in a
    ensures Filter(a + [sep] + rest, IsNot(sep)) == a + Filter(rest, IsNot(sep))
  {
    var keep := IsNot(sep);
    var left := a + [sep];
    FilterAppend(left, rest, keep);
    FilterAppend(a, [sep], keep);
    FilterNoSep(a, sep);
    SepDropped(sep);
    assert Filter(left, keep) == a;
  }

  lemma SepDropped(sep: char)
    ensures Filter([sep], IsNot(sep)) == []
  {
    assert [sep][1..] == [];
  }

  lemma FilterNoSep(a: string, sep: char)
    requires sep !in a
    ensures Filter(a, IsNot(sep)) == a
  {
    forall i | 0 <= i < |a| ensures IsNot(sep)(a[i]) {
      assert a[i] in a;
    }
    FilterAll(a, IsNot(sep));
  }

  /** `s.Replace(pat, rep)`: every non-overlapping occurrence, scanning left to right. */
  function ReplaceAll(s: string, pat: string, rep: string): (r: string)
    requires |pat| > 0
    ensures |rep| <= |pat| ==> |r| <= |s|
    ensures |rep| == |pat| ==> |r| == |s|
  {
    if |s| < |pat| then s
    else if s[..|pat|] == pat then rep + ReplaceAll(s[|pat|..], pat, rep)
    else [s[0]] + ReplaceAll(s[1..], pat, rep)
  }

  /** `pat` occurs in `s` at some position. */
  predicate Occurs(pat: string, s: string) {
    exists i :: 0 <= i <= |s| - |pat| && OccursAt(pat, s, i)
  }

  predicate OccursAt(pat: string, s: string, i: int)
    requires 0 <= i <= |s| - |pat|
  {
    s[i..i + |pat|] == pat
  }

  /** A string without the pattern is left as it is. */
  lemma {:induction false} ReplaceAbsent(s: string, pat: string, rep: string)
    requires |pat| > 0 && !Occurs(pat, s)
    ensures ReplaceAll(s, pat, rep) == s
  {
    if |s| >= |pat| {
      assert !OccursAt(pat, s, 0);
      assert s[0..|pat|] == s[..|pat|];
      if Occurs(pat, s[1..]) {
        var i :| 0 <= i <= |s[1..]| - |pat| && OccursAt(pat, s[1..], i);
        assert s[1..][i..i + |pat|] == s[i + 1..i + 1 + |pat|];
        assert OccursAt(pat, s, i + 1);
      }
      ReplaceAbsent(s[1..], pat, rep);
      assert s == [s[0]] + s[1..];
    }
  }

  /** The pattern at the front is replaced, and the scan goes on after it. */
  lemma ReplacePrefix(pat: string, s: string, rep: string)
    requires |pat| > 0
    ensures ReplaceAll(pat + s, pat, rep) == rep + ReplaceAll(s, pat, rep)
  {
    assert (pat + s)[..|pat|] == pat;
    assert (pat + s)[|pat|..] == s;
  }

  /** A prefix in which no occurrence of the pattern starts is copied unchanged. */
  lemma {:induction false} ReplaceSkip(a: string, s: string, pat: string, rep: string)
    requires |pat| > 0
    requires forall i :: 0 <= i < |a| && i <= |a + s| - |pat| ==> !OccursAt(pat, a + s, i)
    ensures ReplaceAll(a + s, pat, rep) == a + ReplaceAll(s, pat, rep)
  {
    if a != [] {
      var t := a + s;
      assert t[1..] == a[1..] + s;
      forall i | 0 <= i < |a[1..]| && i <= |a[1..] + s| - |pat|
        ensures !OccursAt(pat, a[1..] + s, i)
      {
        assert !OccursAt(pat, t, i + 1);
        assert t[i + 1..i + 1 + |pat|] == (a[1..] + s)[i..i + |pat|];
      }
      ReplaceSkip(a[1..], s, pat, rep);
      if |t| >= |pat| {
        assert !OccursAt(pat, t, 0);
        assert t[0..|pat|] == t[..|pat|];
      } else {
        assert |s| < |pat|;
      }
      AppendAssoc([a[0]], a[1..], ReplaceAll(s, pat, rep));
      assert a == [a[0]] + a[1..];
    } else {
      assert a + s == s;
    }
  }

  /** In particular, a prefix without the pattern's first character is copied. */
  lemma ReplaceSkipFree(a: string, s: string, pat: string, rep: string)
    requires |pat| > 0 && pat[0] !in a
    ensures ReplaceAll(a + s, pat, rep) == a + ReplaceAll(s, pat, rep)
  {
    forall i | 0 <= i < |a| && i <= |a + s| - |pat|
      ensures !OccursAt(pat, a + s, i)
    {
      assert (a + s)[i..i + |pat|][0] == a[i];
    }
    ReplaceSkip(a, s, pat, rep);
  }

  /** A character is kept by a filter exactly when it passes the test and occurs. */
  lemma FilterMember(s: string, keep: char -> bool, c: char)
    ensures c in Filter(s, keep) <==> keep(c) && c in s
  {
    FilterCount(s, keep, c);
    CountZeroIffAbsent(Filter(s, keep), c);
    CountZeroIffAbsent(s, c);
  }

  /** Text with no white space at all is left as it is by `Trim`. */
  lemma TrimNoWhite(s: string)
    requires forall i :: 0 <= i < |s| ==> !IsWhiteSpace(s[i])
    ensures Trim(s) == s
  {
    var a, b := TrimSlice(s);
    assert s[0..|s|] == s;
  }

  /** Something survives a filter exactly when some character passes it. */
  lemma {:induction false} FilterNonEmptyIff(s: string, keep: char -> bool)
    ensures Filter(s, keep) != [] <==> exists i :: 0 <= i < |s| && keep(s[i])
  {
    if s != [] {
      FilterNonEmptyIff(s[1..], keep);
      if exists i :: 0 <= i < |s| && keep(s[i]) {
        var i :| 0 <= i < |s| && keep(s[i]);
        if i > 0 { assert keep(s[1..][i - 1]); }
      }
    }
  }
}
