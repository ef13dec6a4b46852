/**
 * The string operations of JavaScript and Python that the modelled code uses,
 * written out on `string` (a sequence of Unicode scalar values).
 */
module JsText {

  /** Concatenation of `parts` with `sep` between neighbours (`Array.prototype.join`, `str.join`). */
  function Join(parts: seq<string>, sep: string): (r: string)
    ensures parts == [] ==> r == ""
    ensures |parts| == 1 ==> r == parts[0]
  {
    if |parts| == 0 then ""
    else if |parts| == 1 then parts[0]
    else parts[0] + sep + Join(parts[1..], sep)
  }

  /** Concatenation of `parts` with nothing in between (`join('')`). */
  function Concat(parts: seq<string>): string
  {
    if parts == [] then "" else parts[0] + Concat(parts[1..])
  }

  lemma {:induction false} JoinEmptySeparator(parts: seq<string>)
    ensures Join(parts, "") == Concat(parts)
  {
    if |parts| > 1 {
      JoinEmptySeparator(parts[1..]);
    }
  }

  lemma {:induction false} ConcatAppend(a: seq<string>, b: seq<string>)
    ensures Concat(a + b) == Concat(a) + Concat(b)
  {
    if a == [] {
      assert a + b == b;
    } else {
      assert (a + b)[1..] == a[1..] + b;
      ConcatAppend(a[1..], b);
    }
  }

  /** `s.startsWith(p, pos)` for `pos <= |s|`. */
  predicate StartsWithAt(s: string, p: string, pos: nat)
    requires pos <= |s|
  {
    pos + |p| <= |s| && s[pos..pos + |p|] == p
  }


  predicate StartsWith(s: string, p: string) {
    |p| <= |s| && s[..|p|] == p
  }

  predicate EndsWith(s: string, p: string) {
    |p| <= |s| && s[|s| - |p|..] == p
  }

  /** `s.includes(p)`. */
  predicate Contains(s: string, p: string) {
    StartsWith(s, p) || (s != [] && Contains(s[1..], p))
  }

  /**
   * Replaces every non-overlapping occurrence of `pat`, scanning left to right
   * (a global regular-expression replace of a literal pattern, or Python's `str.replace`).
   */
  function ReplaceAll(s: string, pat: string, rep: string): (r: string)
    requires pat != ""
    ensures rep == pat ==> r == s
    ensures |rep| == |pat| ==> |r| == |s|
    decreases |s|
  {
    if |s| < |pat| then s
    else if s[..|pat|] == pat then
      assert s == s[..|pat|] + s[|pat|..];
      rep + ReplaceAll(s[|pat|..], pat, rep)
    else
      assert s == [s[0]] + s[1..];
      [s[0]] + ReplaceAll(s[1..], pat, rep)
  }

  /** A text without the pattern is left as it is. */
  lemma {:induction false} ReplaceAllAbsent(s: string, pat: string, rep: string)
    requires pat != "" && !Contains(s, pat)
    ensures ReplaceAll(s, pat, rep) == s
    decreases |s|
  {
    if |s| >= |pat| {
      assert s != [] && !StartsWith(s, pat);
      ReplaceAllAbsent(s[1..], pat, rep);
    }
  }

  /** The characters JavaScript counts as white space or line terminators (`trim`, `\s`). */
  predicate IsJsWhitespace(c: char) {
    var n := c as int;
    (0x09 <= n <= 0x0D) || n == 0x20 || n == 0xA0 || n == 0x1680 ||
    (0x2000 <= n <= 0x200A) || n == 0x2028 || n == 0x2029 || n == 0x202F ||
    n == 0x205F || n == 0x3000 || n == 0xFEFF
  }

  function TrimStart(s: string): (r: string)
    ensures |r| <= |s| && r == s[|s| - |r|..]
    ensures r != [] ==> !IsJsWhitespace(r[0])
    ensures forall i :: 0 <= i < |s| - |r| ==> IsJsWhitespace(s[i])
  {
    if s != [] && IsJsWhitespace(s[0]) then TrimStart(s[1..]) else s
  }

  function TrimEnd(s: string): (r: string)
    ensures |r| <= |s| && r == s[..|r|]
    ensures r != [] ==> !IsJsWhitespace(r[|r| - 1])
    ensures forall i :: |r| <= i < |s| ==> IsJsWhitespace(s[i])
  {
    if s != [] && IsJsWhitespace(s[|s| - 1]) then TrimEnd(s[..|s| - 1]) else s
  }

  /** `s.trim()`. */
  function Trim(s: string): (r: string)
    ensures |r| <= |s|
    ensures r != [] ==> !IsJsWhitespace(r[0]) && !IsJsWhitespace(r[|r| - 1])
    ensures exists i :: 0 <= i <= |s| && StartsWithAt(s, r, i)
  {
    var t := TrimStart(s);
    var r := TrimEnd(t);
    assert r == s[|s| - |t|..][..|r|] == s[|s| - |t|..|s| - |t| + |r|];
    assert StartsWithAt(s, r, |s| - |t|);
    r
  }


  /** A string whose `trim()` is empty: the modelled code's "whitespace-only" test. */
  predicate IsBlank(s: string) {
    |Trim(s)| == 0
  }

  /** Every character of `s` is white space. */
  predicate AllWhitespace(s: string) {
    s == [] || (IsJsWhitespace(s[0]) && AllWhitespace(s[1..]))
  }

  lemma {:induction false} AllWhitespaceIndexed(s: string)
    ensures AllWhitespace(s) <==> forall i :: 0 <= i < |s| ==> IsJsWhitespace(s[i])
  {
    if s != [] {
      AllWhitespaceIndexed(s[1..]);
      assert forall i :: 1 <= i < |s| ==> s[i] == s[1..][i - 1];
    }
  }

  lemma BlankIffAllWhitespace(s: string)
    ensures IsBlank(s) <==> AllWhitespace(s)
  {
    AllWhitespaceIndexed(s);
    var t := TrimStart(s);
    if !forall i :: 0 <= i < |s| ==> IsJsWhitespace(s[i]) {
      var k :| 0 <= k < |s| && !IsJsWhitespace(s[k]);
      assert |t| > 0;
      assert !IsJsWhitespace(t[0]);
    }
  }

  /** The number of UTF-16 code units of `s` (JavaScript's `length`). */
  function JsLength(s: string): (n: nat)
    ensures |s| <= n <= 2 * |s|
  {
    if s == [] then 0 else (if s[0] as int > 0xFFFF then 2 else 1) + JsLength(s[1..])
  }

  lemma {:induction false} JsLengthAppend(a: string, b: string)
    ensures JsLength(a + b) == JsLength(a) + JsLength(b)
  {
    if a != [] {
      assert (a + b)[0] == a[0];
      assert (a + b)[1..] == a[1..] + b;
      JsLengthAppend(a[1..], b);
    } else {
      assert a + b == b;
    }
  }

  /** A text of characters from the Basic Multilingual Plane has one code unit per character. */
  lemma {:induction false} JsLengthBmp(s: string)
    requires forall i :: 0 <= i < |s| ==> s[i] as int <= 0xFFFF
    ensures JsLength(s) == |s|
  {
    if s != [] {
      assert forall i :: 1 <= i < |s| ==> s[1..][i - 1] == s[i];
      JsLengthBmp(s[1..]);
    }
  }

  lemma JsLengthSplit(s: string, k: nat)
    requires k <= |s|
    ensures JsLength(s) == JsLength(s[..k]) + JsLength(s[k..])
  {
    assert s == s[..k] + s[k..];
    JsLengthAppend(s[..k], s[k..]);
  }

  /** `c.repeat(n)`. */
  function Repeat(c: char, n: nat): (r: string)
    ensures |r| == n && forall i :: 0 <= i < n ==> r[i] == c
  {
    if n == 0 then "" else [c] + Repeat(c, n - 1)
  }

  /** JavaScript `s.split(sep)` for a one-character separator. */
  function Split(s: string, sep: char): (r: seq<string>)
    ensures |r| >= 1
    ensures forall k :: 0 <= k < |r| ==> sep !in r[k]
  {
    if s == [] then [""]
    else
      var rest := Split(s[1..], sep);
      if s[0] == sep then [""] + rest else [[s[0]] + rest[0]] + rest[1..]
  }

  lemma {:induction false} SplitJoin(s: string, sep: char)
    ensures Join(Split(s, sep), [sep]) == s
  {
    if s != [] {
      SplitJoin(s[1..], sep);
      var rest := Split(s[1..], sep);
      if s[0] == sep {
        assert ([""] + rest)[1..] == rest;
      } else {
        var r := Split(s, sep);
        assert r[0] == [s[0]] + rest[0] && r[1..] == rest[1..];
        if |rest| > 1 {
          assert Join(rest, [sep]) == rest[0] + [sep] + Join(rest[1..], [sep]);
        }
      }
    }
  }

  lemma {:induction false} SplitNoSeparator(s: string, sep: char)
    requires sep !in s
    ensures Split(s, sep) == [s]
  {
    if s != [] {
      SplitNoSeparator(s[1..], sep);
      assert [s[0]] + s[1..] == s;
    }
  }

  lemma {:induction false} SplitAppend(a: string, b: string, sep: char)
    requires sep !in a
    ensures Split(a + [sep] + b, sep) == [a] + Split(b, sep)
  {
    if a == [] {
      assert a + [sep] + b == [sep] + b;
      assert ([sep] + b)[1..] == b;
    } else {
      assert (a + [sep] + b)[1..] == a[1..] + [sep] + b;
      SplitAppend(a[1..], b, sep);
      assert (a + [sep] + b)[0] == a[0] != sep;
      assert [a[0]] + a[1..] == a;
    }
  }

  /** The non-empty parts of a split. */
  function NonEmpty(parts: seq<string>): (r: seq<string>)
    ensures forall k :: 0 <= k < |r| ==> r[k] != "" && r[k] in parts
  {
    if parts == [] then []
    else if parts[0] == "" then NonEmpty(parts[1..])
    else [parts[0]] + NonEmpty(parts[1..])
  }

  /** Splitting a join at its separator gives the parts back, when no part holds the separator. */
  lemma {:induction false} JoinSplit(parts: seq<string>, sep: char)
    requires |parts| >= 1 && forall k :: 0 <= k < |parts| ==> sep !in parts[k]
    ensures Split(Join(parts, [sep]), sep) == parts
  {
    if |parts| == 1 {
      SplitNoSeparator(parts[0], sep);
    } else {
      JoinSplit(parts[1..], sep);
      SplitAppend(parts[0], Join(parts[1..], [sep]), sep);
      assert parts == [parts[0]] + parts[1..];
    }
  }

  lemma {:induction false} NonEmptyKeepsAll(parts: seq<string>)
    requires forall k :: 0 <= k < |parts| ==> parts[k] != ""
    ensures NonEmpty(parts) == parts
  {
    if parts != [] {
      NonEmptyKeepsAll(parts[1..]);
      assert parts == [parts[0]] + parts[1..];
    }
  }

  /** One step of `ReplaceAll` at a match. */
  lemma ReplaceAllMatch(s: string, pat: string, rep: string)
    requires pat != "" && |s| >= |pat| && s[..|pat|] == pat
    ensures ReplaceAll(s, pat, rep) == rep + ReplaceAll(s[|pat|..], pat, rep)
  {
  }

  /** One step of `ReplaceAll` where no match starts. */
  lemma ReplaceAllSkip(s: string, pat: string, rep: string)
    requires pat != "" && |s| >= |pat| && s[..|pat|] != pat
    ensures ReplaceAll(s, pat, rep) == [s[0]] + ReplaceAll(s[1..], pat, rep)
  {
  }

  /** A match of `pat` cannot straddle a character that `pat` does not hold. */
  lemma {:induction false} ReplaceAllAround(a: string, c: char, b: string, pat: string, rep: string)
    requires pat != "" && c !in pat
    ensures ReplaceAll(a + [c] + b, pat, rep) == ReplaceAll(a, pat, rep) + [c] + ReplaceAll(b, pat, rep)
    decreases |a|, 2
  {
    if |a| >= |pat| {
      ReplaceAllAroundLong(a, c, b, pat, rep);
    } else {
      ReplaceAllAroundShort(a, c, b, pat, rep);
    }
  }

  lemma {:induction false} ReplaceAllAroundLong(a: string, c: char, b: string, pat: string, rep: string)
    requires pat != "" && c !in pat && |a| >= |pat|
    ensures ReplaceAll(a + [c] + b, pat, rep) == ReplaceAll(a, pat, rep) + [c] + ReplaceAll(b, pat, rep)
    decreases |a|, 1
  {
    var s := a + [c] + b;
    var tail := ReplaceAll(b, pat, rep);
    assert s[..|pat|] == a[..|pat|];
    if a[..|pat|] == pat {
      var a' := a[|pat|..];
      assert s[|pat|..] == a' + [c] + b;
      ReplaceAllAround(a', c, b, pat, rep);
      ReplaceAllMatch(s, pat, rep);
      ReplaceAllMatch(a, pat, rep);
      var r' := ReplaceAll(a', pat, rep);
      assert rep + (r' + [c] + tail) == (rep + r') + [c] + tail;
    } else {
      var a' := a[1..];
      assert s[1..] == a' + [c] + b && s[0] == a[0];
      ReplaceAllAround(a', c, b, pat, rep);
      ReplaceAllSkip(s, pat, rep);
      ReplaceAllSkip(a, pat, rep);
      var r' := ReplaceAll(a', pat, rep);
      assert [a[0]] + (r' + [c] + tail) == ([a[0]] + r') + [c] + tail;
    }
  }

  lemma {:induction false} ReplaceAllAroundShort(a: string, c: char, b: string, pat: string, rep: string)
    requires pat != "" && c !in pat && |a| < |pat|
    ensures ReplaceAll(a + [c] + b, pat, rep) == ReplaceAll(a, pat, rep) + [c] + ReplaceAll(b, pat, rep)
    decreases |a|, 1
  {
    if |a| + 1 + |b| < |pat| {
      assert ReplaceAll(a + [c] + b, pat, rep) == a + [c] + b;
      assert ReplaceAll(b, pat, rep) == b;
    } else if a == [] {
      ReplaceAllAtSeparator(c, b, pat, rep);
    } else {
      ReplaceAllAroundShortStep(a, c, b, pat, rep);
    }
  }

  lemma {:induction false} ReplaceAllAroundShortStep(a: string, c: char, b: string, pat: string, rep: string)
    requires pat != "" && c !in pat && 0 < |a| < |pat| <= |a| + 1 + |b|
    ensures ReplaceAll(a + [c] + b, pat, rep) == ReplaceAll(a, pat, rep) + [c] + ReplaceAll(b, pat, rep)
    decreases |a|, 0
  {
    var tail := ReplaceAll(b, pat, rep);
    var a' := a[1..];
    ReplaceAllSkipShort(a, c, b, pat, rep);
    ReplaceAllAround(a', c, b, pat, rep);
    ReplaceAllShort(a', pat, rep);
    ReplaceAllShort(a, pat, rep);
    assert [a[0]] + (a' + [c] + tail) == a + [c] + tail by {
      assert a == [a[0]] + a';
    }
  }

  /** A text shorter than the pattern is left as it is. */
  lemma ReplaceAllShort(s: string, pat: string, rep: string)
    requires pat != "" && |s| < |pat|
    ensures ReplaceAll(s, pat, rep) == s
  {
  }

  /** No match can start within a prefix shorter than `pat` that is followed by `c`. */
  lemma ReplaceAllSkipShort(a: string, c: char, b: string, pat: string, rep: string)
    requires pat != "" && c !in pat && 0 < |a| < |pat| <= |a| + 1 + |b|
    ensures ReplaceAll(a + [c] + b, pat, rep) == [a[0]] + ReplaceAll(a[1..] + [c] + b, pat, rep)
  {
    var s := a + [c] + b;
    assert s[1..] == a[1..] + [c] + b && s[0] == a[0];
    assert s[..|pat|][|a|] == c && pat[|a|] in pat;
    ReplaceAllSkip(s, pat, rep);
  }

  lemma ReplaceAllAtSeparator(c: char, b: string, pat: string, rep: string)
    requires pat != "" && c !in pat
    ensures ReplaceAll([c] + b, pat, rep) == [c] + ReplaceAll(b, pat, rep)
  {
    var s := [c] + b;
    assert s[1..] == b;
    if |s| >= |pat| {
      assert s[..|pat|][0] == c && pat[0] in pat;
      ReplaceAllSkip(s, pat, rep);
    } else {
      assert ReplaceAll(b, pat, rep) == b;
    }
  }

  /**
   * Replacing in a text joined with a one-character separator that `pat`
   * does not hold replaces in each part: `qs` are the parts after replacement.
   */
  lemma {:induction false} ReplaceAllJoin(parts: seq<string>, qs: seq<string>, sep: char, pat: string, rep: string)
    requires pat != "" && sep !in pat
    requires |qs| == |parts| && forall k :: 0 <= k < |parts| ==> qs[k] == ReplaceAll(parts[k], pat, rep)
    ensures ReplaceAll(Join(parts, [sep]), pat, rep) == Join(qs, [sep])
  {
    if |parts| >= 2 {
      ReplaceAllJoin(parts[1..], qs[1..], sep, pat, rep);
      ReplaceAllAround(parts[0], sep, Join(parts[1..], [sep]), pat, rep);
      assert parts[0] + [sep] + Join(parts[1..], [sep]) == Join(parts, [sep]);
    }
  }

  /** A part that is exactly the pattern becomes the replacement. */
  lemma ReplaceAllWhole(pat: string, rep: string)
    requires pat != ""
    ensures ReplaceAll(pat, pat, rep) == rep
  {
    assert pat[..|pat|] == pat && pat[|pat|..] == "";
  }

  /** Joining one more part appends the separator and that part. */
  lemma {:induction false} JoinSnoc(parts: seq<string>, x: string, sep: string)
    requires parts != []
    ensures Join(parts + [x], sep) == Join(parts, sep) + sep + x
  {
    if |parts| >= 2 {
      JoinSnoc(parts[1..], x, sep);
      assert (parts + [x])[1..] == parts[1..] + [x];
    } else {
      assert parts + [x] == [parts[0], x];
    }
  }

  /** A join of non-empty parts starts with the first part's first character and ends with the last part's last. */
  lemma {:induction false} JoinEdges(parts: seq<string>, sep: string)
    requires parts != [] && forall k :: 0 <= k < |parts| ==> parts[k] != ""
    ensures var j := Join(parts, sep);
      j != "" && j[0] == parts[0][0] && j[|j| - 1] == parts[|parts| - 1][|parts[|parts| - 1]| - 1]
  {
    if |parts| >= 2 {
      JoinEdges(parts[1..], sep);
    }
  }

  /** `trim()` leaves a string alone whose ends are not white space. */
  lemma TrimUnchanged(s: string)
    requires s != [] && !IsJsWhitespace(s[0]) && !IsJsWhitespace(s[|s| - 1])
    ensures Trim(s) == s
  {
  }

  /** `trim()` of a space followed by such a string is that string. */
  lemma TrimLeadingSpace(s: string)
    requires s != [] && !IsJsWhitespace(s[0]) && !IsJsWhitespace(s[|s| - 1])
    ensures Trim(" " + s) == s
  {
    assert (" " + s)[1..] == s;
  }
}
