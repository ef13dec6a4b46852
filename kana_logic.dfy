/**
 * Answer matching and progress logic of the kana control: the search for the
 * answer tokens a typed string covers, the in-place marking of those tokens,
 * the choice among alternative answers, completion, the English prompt
 * scanner and the construction of a question.
 */
module KanaControlLogic {
  import opened Wrappers
  import JsText
  import Morphemes

  /** A token of a parsed answer; a `marked` of `undefined` is `false`. */
  datatype Token = Token(surface: string, reading: Option<string>, pos: Option<string>, marked: bool)

  /** What `str.startsWith(reading, pos)` compares: a missing reading is coerced to "undefined". */
  function ReadingText(t: Token): string {
    match t.reading
    case Some(r) => r
    case None => "undefined"
  }

  // ---------------------------------------------------------------------------
  // findMatch
  // ---------------------------------------------------------------------------

  predicate InRange(idx: seq<nat>, n: nat) {
    forall k :: 0 <= k < |idx| ==> idx[k] < n
  }

  /** `idx` is strictly increasing with every entry in [start, n). */
  predicate Increasing(idx: seq<nat>, start: nat, n: nat) {
    (forall k :: 0 <= k < |idx| ==> start <= idx[k] < n) &&
    (forall k, l :: 0 <= k < l < |idx| ==> idx[k] < idx[l])
  }

  /** The readings of the tokens at `idx`, concatenated. */
  function Readings(tokens: seq<Token>, idx: seq<nat>): string
    requires InRange(idx, |tokens|)
  {
    if idx == [] then "" else ReadingText(tokens[idx[0]]) + Readings(tokens, idx[1..])
  }

  /** `idx` picks tokens at increasing indices from `start` whose readings spell `str[pos..]`. */
  predicate IsCover(tokens: seq<Token>, str: string, start: nat, pos: nat, idx: seq<nat>)
    requires pos <= |str|
  {
    Increasing(idx, start, |tokens|) && Readings(tokens, idx) == str[pos..]
  }

  function Remaining(tokens: seq<Token>, i: nat): nat {
    if i <= |tokens| then |tokens| - i else 0
  }

  /**
   * `findMatch(tokens, str, startIdx, pos)`: the first cover found by trying,
   * at each step, the tokens from `startIdx` on in order.
   */
  function FindMatch(tokens: seq<Token>, str: string, startIdx: nat, pos: nat): (r: Option<seq<nat>>)
    requires pos <= |str|
    ensures pos == |str| ==> r == Some([])
    ensures r.Some? ==> IsCover(tokens, str, startIdx, pos, r.value)
    decreases Remaining(tokens, startIdx), 1
  {
    if pos == |str| then Some([]) else TryFrom(tokens, str, pos, startIdx)
  }

  /** The `for` loop of `findMatch`, from token `i` on. */
  function TryFrom(tokens: seq<Token>, str: string, pos: nat, i: nat): (r: Option<seq<nat>>)
    requires pos <= |str|
    ensures r.Some? ==> IsCover(tokens, str, i, pos, r.value)
    decreases Remaining(tokens, i), 0
  {
    if i >= |tokens| then None
    else
      var rd := ReadingText(tokens[i]);
      if JsText.StartsWithAt(str, rd, pos) then
        match FindMatch(tokens, str, i + 1, pos + |rd|)
        case Some(rest) =>
          var idx := [i] + rest;
          assert idx[1..] == rest;
          assert str[pos..] == rd + str[pos + |rd|..];
          Some(idx)
        case None => TryFrom(tokens, str, pos, i + 1)
      else TryFrom(tokens, str, pos, i + 1)
  }

  /** If any cover from `startIdx` exists, `findMatch` finds one. */
  lemma {:induction false} FindMatchComplete(tokens: seq<Token>, str: string, startIdx: nat, pos: nat, idx: seq<nat>)
    requires pos <= |str| && IsCover(tokens, str, startIdx, pos, idx)
    ensures FindMatch(tokens, str, startIdx, pos).Some?
    decreases Remaining(tokens, startIdx), 1
  {
    if pos < |str| {
      TryFromComplete(tokens, str, pos, startIdx, idx);
    }
  }

  lemma {:induction false} TryFromComplete(tokens: seq<Token>, str: string, pos: nat, i: nat, idx: seq<nat>)
    requires pos < |str| && IsCover(tokens, str, i, pos, idx)
    ensures TryFrom(tokens, str, pos, i).Some?
    decreases Remaining(tokens, i), 0
  {
    CoverHead(tokens, str, pos, i, idx);
    if idx[0] == i {
      FindMatchComplete(tokens, str, i + 1, pos + |ReadingText(tokens[i])|, idx[1..]);
    } else {
      TryFromComplete(tokens, str, pos, i + 1, idx);
    }
  }

  /** A cover's first token spells a prefix of `str[pos..]`, and the rest covers what follows. */
  lemma CoverHead(tokens: seq<Token>, str: string, pos: nat, i: nat, idx: seq<nat>)
    requires pos < |str| && IsCover(tokens, str, i, pos, idx)
    ensures idx != [] && i <= idx[0] < |tokens|
    ensures var rd := ReadingText(tokens[idx[0]]);
      JsText.StartsWithAt(str, rd, pos) &&
      IsCover(tokens, str, idx[0] + 1, pos + |rd|, idx[1..])
    ensures idx[0] != i ==> IsCover(tokens, str, i + 1, pos, idx)
  {
    assert idx != [];
    var rd := ReadingText(tokens[idx[0]]);
    assert Readings(tokens, idx) == rd + Readings(tokens, idx[1..]);
    assert str[pos..][..|rd|] == rd;
    assert str[pos..pos + |rd|] == rd;
    assert str[pos..][|rd|..] == str[pos + |rd|..];
  }

  /** `findMatch` returns null exactly when no cover exists. */
  lemma FindMatchNullIffNoCover(tokens: seq<Token>, str: string, startIdx: nat, pos: nat)
    requires pos <= |str|
    ensures FindMatch(tokens, str, startIdx, pos).None? <==>
            forall idx :: !IsCover(tokens, str, startIdx, pos, idx)
  {
    if exists idx :: IsCover(tokens, str, startIdx, pos, idx) {
      var idx :| IsCover(tokens, str, startIdx, pos, idx);
      FindMatchComplete(tokens, str, startIdx, pos, idx);
    }
  }

  // ---------------------------------------------------------------------------
  // findMatch with the missing-reading exception
  // ---------------------------------------------------------------------------

  /**
   * How the source's search ends: with a cover, with null, or with the
   * TypeError raised when a token without a reading passes the `startsWith`
   * test (the missing reading compares as "undefined", and then its `length`
   * is read).
   */
  datatype Search = Found(idx: seq<nat>) | NotFound | Threw

  function AsSearch(o: Option<seq<nat>>): Search {
    match o
    case Some(idx) => Found(idx)
    case None => NotFound
  }

  predicate ReadingMissingFrom(tokens: seq<Token>, i: nat) {
    exists k :: i <= k < |tokens| && tokens[k].reading.None?
  }

  /**
   * `findMatch` with the exception: where it does not throw it is `FindMatch`,
   * and it throws only when some token from `startIdx` on has no reading.
   */
  function FindMatchJs(tokens: seq<Token>, str: string, startIdx: nat, pos: nat): (r: Search)
    requires pos <= |str|
    ensures !r.Threw? ==> r == AsSearch(FindMatch(tokens, str, startIdx, pos))
    ensures r.Threw? ==> ReadingMissingFrom(tokens, startIdx)
    decreases Remaining(tokens, startIdx), 1
  {
    if pos == |str| then Found([]) else TryFromJs(tokens, str, pos, startIdx)
  }

  function TryFromJs(tokens: seq<Token>, str: string, pos: nat, i: nat): (r: Search)
    requires pos <= |str|
    ensures !r.Threw? ==> r == AsSearch(TryFrom(tokens, str, pos, i))
    ensures r.Threw? ==> ReadingMissingFrom(tokens, i)
    decreases Remaining(tokens, i), 0
  {
    if i >= |tokens| then NotFound
    else
      var rd := ReadingText(tokens[i]);
      if !JsText.StartsWithAt(str, rd, pos) then TryFromJs(tokens, str, pos, i + 1)
      else if tokens[i].reading.None? then Threw
      else
        match FindMatchJs(tokens, str, i + 1, pos + |rd|)
        case Found(rest) => Found([i] + rest)
        case NotFound => TryFromJs(tokens, str, pos, i + 1)
        case Threw => Threw
  }

  /** With every reading present the search never throws. */
  lemma FindMatchJsWithReadings(tokens: seq<Token>, str: string, startIdx: nat, pos: nat)
    requires pos <= |str| && forall k :: 0 <= k < |tokens| ==> tokens[k].reading.Some?
    ensures FindMatchJs(tokens, str, startIdx, pos) == AsSearch(FindMatch(tokens, str, startIdx, pos))
  {
  }

  /** A token without a reading against the text "undefined": the source throws where `FindMatch` finds a cover. */
  lemma UndefinedReadingThrows()
    ensures var tokens := [Token("x", None, Some("名詞"), false)];
      FindMatchJs(tokens, "undefined", 0, 0) == Threw && FindMatch(tokens, "undefined", 0, 0) == Some([0])
  {
    var tokens := [Token("x", None, Some("名詞"), false)];
    var str := "undefined";
    assert ReadingText(tokens[0]) == str && |str| == 9;
    assert str[0..9] == str;
    assert JsText.StartsWithAt(str, ReadingText(tokens[0]), 0);
    assert FindMatch(tokens, str, 1, 9) == Some([]);
    assert [0] + [] == [0];
  }

  // ---------------------------------------------------------------------------
  // markTokens, flat
  // ---------------------------------------------------------------------------

  /** `s` with the token at every index of `idx` marked. */
  function MarkAt(s: seq<Token>, idx: seq<nat>): (r: seq<Token>)
    requires InRange(idx, |s|)
    ensures |r| == |s|
    ensures forall j :: 0 <= j < |s| ==> r[j] == if j in idx then s[j].(marked := true) else s[j]
  {
    if idx == [] then s
    else
      var x := idx[|idx| - 1];
      MarkAt(s, idx[..|idx| - 1])[x := s[x].(marked := true)]
  }

  /** The entries of `idx`, in order, whose tokens are not yet marked in `s`. */
  function Unmarked(s: seq<Token>, idx: seq<nat>): (r: seq<nat>)
    requires InRange(idx, |s|)
    ensures |r| <= |idx|
    ensures forall j :: j in r <==> j in idx && !s[j].marked
  {
    if idx == [] then []
    else
      var x := idx[|idx| - 1];
      Unmarked(s, idx[..|idx| - 1]) + (if s[x].marked then [] else [x])
  }

  /** What the flat `markTokens` reports as `matched` for the tokens `s`. */
  function MatchedFor(s: seq<Token>, str: string): Option<seq<nat>> {
    match FindMatch(s, str, 0, 0)
    case None => None
    case Some(m) => Some(Unmarked(s, m))
  }

  /** The tokens after the flat `markTokens` on `s`. */
  function MarkedFor(s: seq<Token>, str: string): seq<Token> {
    match FindMatch(s, str, 0, 0)
    case None => s
    case Some(m) => MarkAt(s, m)
  }

  /** The flat `markTokens`: marks the tokens of the match in place. */
  method MarkTokens(tokens: array<Token>, str: string) returns (matched: Option<seq<nat>>)
    modifies tokens
    ensures matched == MatchedFor(old(tokens[..]), str)
    ensures tokens[..] == MarkedFor(old(tokens[..]), str)
  {
    var found := FindMatch(tokens[..], str, 0, 0);
    if found.None? {
      return None;
    }
    var idx := found.value;
    ghost var s := tokens[..];
    var newlyMarked: seq<nat> := [];
    for k := 0 to |idx|
      invariant tokens[..] == MarkAt(s, idx[..k])
      invariant newlyMarked == Unmarked(s, idx[..k])
    {
      var j := idx[k];
      MarkStep(s, idx, k);
      if !tokens[j].marked {
        tokens[j] := tokens[j].(marked := true);
        newlyMarked := newlyMarked + [j];
      }
    }
    assert idx[..|idx|] == idx;
    return Some(newlyMarked);
  }

  /** One more index of an increasing `idx`: its token is still as in `s`, and it is marked next. */
  lemma MarkStep(s: seq<Token>, idx: seq<nat>, k: nat)
    requires Increasing(idx, 0, |s|) && k < |idx|
    ensures MarkAt(s, idx[..k])[idx[k]] == s[idx[k]]
    ensures MarkAt(s, idx[..k + 1]) == MarkAt(s, idx[..k])[idx[k] := s[idx[k]].(marked := true)]
    ensures Unmarked(s, idx[..k + 1]) == Unmarked(s, idx[..k]) + (if s[idx[k]].marked then [] else [idx[k]])
  {
    PrefixStep(idx, k);
    assert idx[k] !in idx[..k];
  }

  lemma PrefixStep(idx: seq<nat>, k: nat)
    requires k < |idx|
    ensures idx[..k + 1][..k] == idx[..k] && idx[..k + 1][k] == idx[k] && |idx[..k + 1]| == k + 1
  {
  }

  /** The marked count of `t` after one token is replaced by `v`. */
  lemma {:induction false} MarkedCountUpdate(t: seq<Token>, x: nat, v: Token)
    requires x < |t|
    ensures MarkedCount(t[x := v]) ==
            MarkedCount(t) - (if t[x].marked then 1 else 0) + (if v.marked then 1 else 0)
  {
    var n := |t| - 1;
    if x < n {
      assert t[x := v][..n] == t[..n][x := v];
      MarkedCountUpdate(t[..n], x, v);
    } else {
      assert t[x := v][..n] == t[..n];
    }
  }

  /** Marking raises the marked count by exactly the number of indices it reports. */
  lemma {:induction false} MarkAtCount(s: seq<Token>, idx: seq<nat>)
    requires Increasing(idx, 0, |s|)
    ensures MarkedCount(MarkAt(s, idx)) == MarkedCount(s) + |Unmarked(s, idx)|
  {
    if idx != [] {
      var n := |idx| - 1;
      var x := idx[n];
      MarkAtCount(s, idx[..n]);
      assert x !in idx[..n];
      MarkedCountUpdate(MarkAt(s, idx[..n]), x, s[x].(marked := true));
    }
  }

  /** The flat `markTokens` adds one marked token per index it reports, and only those. */
  lemma MarkTokensCount(s: seq<Token>, str: string)
    requires MatchedFor(s, str).Some?
    ensures MarkedCount(MarkedFor(s, str)) == MarkedCount(s) + |MatchedFor(s, str).value|
  {
    MarkAtCount(s, FindMatch(s, str, 0, 0).value);
  }

  /** Marking changes no surface, reading or pos, and unmarks nothing. */
  lemma MarkTokensKeepsTokens(s: seq<Token>, str: string)
    ensures |MarkedFor(s, str)| == |s|
    ensures forall j :: 0 <= j < |s| ==>
      MarkedFor(s, str)[j].(marked := s[j].marked) == s[j] &&
      (s[j].marked ==> MarkedFor(s, str)[j].marked)
  {
  }

  /** The empty string always matches, with nothing newly marked and no token changed. */
  lemma MarkEmptyString(s: seq<Token>)
    ensures MatchedFor(s, "") == Some([]) && MarkedFor(s, "") == s
  {
  }

  /** A string covered only partly ("abc" against "ab", "cd") is no match. */
  lemma PartialCoverIsNoMatch()
    ensures MatchedFor([Token("a", Some("ab"), None, false), Token("c", Some("cd"), None, false)], "abc").None?
  {
    var s := [Token("a", Some("ab"), None, false), Token("c", Some("cd"), None, false)];
    assert "abc"[0..2][0] != "cd"[0];
    assert !JsText.StartsWithAt("abc", "cd", 0);
    assert !JsText.StartsWithAt("abc", "ab", 2);
    assert !JsText.StartsWithAt("abc", "cd", 2);
    assert TryFrom(s, "abc", 2, 2).None?;
    assert TryFrom(s, "abc", 2, 1).None?;
    assert FindMatch(s, "abc", 1, 2).None?;
    assert TryFrom(s, "abc", 0, 1).None?;
  }

  // ---------------------------------------------------------------------------
  // Choice among alternative answers
  // ---------------------------------------------------------------------------

  /** The number of marked tokens of `g`. */
  function MarkedCount(g: seq<Token>): (n: nat)
    ensures n <= |g|
  {
    if g == [] then 0 else MarkedCount(g[..|g| - 1]) + (if g[|g| - 1].marked then 1 else 0)
  }

  /** The largest marked count among `groups` (0 for none). */
  function MaxMarked(groups: seq<seq<Token>>): (m: nat)
    ensures forall i :: 0 <= i < |groups| ==> MarkedCount(groups[i]) <= m
    ensures groups != [] ==> exists i :: 0 <= i < |groups| && MarkedCount(groups[i]) == m
  {
    if groups == [] then 0
    else
      var n := |groups| - 1;
      var m0 := MaxMarked(groups[..n]);
      var c := MarkedCount(groups[n]);
      assert forall i :: 0 <= i < n ==> groups[..n][i] == groups[i];
      if c >= m0 then c else m0
  }

  /** `r` is an order-preserving sublist of `s`. */
  predicate IsSublist<T(==)>(r: seq<T>, s: seq<T>) {
    if r == [] then true
    else if s == [] then false
    else (r[|r| - 1] == s[|s| - 1] && IsSublist(r[..|r| - 1], s[..|s| - 1])) || IsSublist(r, s[..|s| - 1])
  }

  /** The groups with marked count `c`, in order. */
  function WithMarkedCount(groups: seq<seq<Token>>, c: nat): (r: seq<seq<Token>>)
    ensures IsSublist(r, groups)
    ensures forall g :: g in r <==> g in groups && MarkedCount(g) == c
  {
    if groups == [] then []
    else
      var n := |groups| - 1;
      var r0 := WithMarkedCount(groups[..n], c);
      assert groups == groups[..n] + [groups[n]];
      if MarkedCount(groups[n]) == c then
        assert (r0 + [groups[n]])[..|r0|] == r0;
        r0 + [groups[n]]
      else r0
  }

  /** `getGroupsWithMaxMarkedTokens`: the groups whose marked count is the largest. */
  function GroupsWithMaxMarked(groups: seq<seq<Token>>): (r: seq<seq<Token>>)
    ensures groups == [] <==> r == []
    ensures IsSublist(r, groups)
    ensures forall g :: g in r <==> g in groups && MarkedCount(g) == MaxMarked(groups)
  {
    if groups == [] then []
    else
      var r := WithMarkedCount(groups, MaxMarked(groups));
      var i :| 0 <= i < |groups| && MarkedCount(groups[i]) == MaxMarked(groups);
      assert groups[i] in r;
      r
  }

  /**
   * The filter exactly: `ix` holds, in increasing order, every index whose
   * group has marked count `c`, and `WithMarkedCount` is the groups at those
   * indices, repeated groups included.
   */
  lemma {:induction false} WithMarkedCountIndices(groups: seq<seq<Token>>, c: nat) returns (ix: seq<nat>)
    ensures IsFilterIndex(groups, c, WithMarkedCount(groups, c), ix)
  {
    if groups == [] {
      ix := [];
    } else {
      var n := |groups| - 1;
      var ix0 := WithMarkedCountIndices(groups[..n], c);
      var r0 := WithMarkedCount(groups[..n], c);
      if MarkedCount(groups[n]) == c {
        assert WithMarkedCount(groups, c) == r0 + [groups[n]];
        ix := ix0 + [n];
      } else {
        assert WithMarkedCount(groups, c) == r0;
        ix := ix0;
      }
      FilterIndexSnoc(groups, c, r0, ix0);
    }
  }

  /** `r` is `groups` at the increasing indices `ix`, which are exactly those of the groups with count `c`. */
  predicate IsFilterIndex(groups: seq<seq<Token>>, c: nat, r: seq<seq<Token>>, ix: seq<nat>) {
    |ix| == |r| &&
    (forall j :: 0 <= j < |ix| ==> ix[j] < |groups| && r[j] == groups[ix[j]]) &&
    (forall j, l :: 0 <= j < l < |ix| ==> ix[j] < ix[l]) &&
    (forall i :: 0 <= i < |groups| ==> (MarkedCount(groups[i]) == c <==> i in ix))
  }

  lemma FilterIndexSnoc(groups: seq<seq<Token>>, c: nat, r0: seq<seq<Token>>, ix0: seq<nat>)
    requires groups != [] && IsFilterIndex(groups[..|groups| - 1], c, r0, ix0)
    ensures var n := |groups| - 1;
      if MarkedCount(groups[n]) == c then IsFilterIndex(groups, c, r0 + [groups[n]], ix0 + [n])
      else IsFilterIndex(groups, c, r0, ix0)
  {
    var n := |groups| - 1;
    assert forall i :: 0 <= i < n ==> groups[..n][i] == groups[i];
    if MarkedCount(groups[n]) == c {
      var ix := ix0 + [n];
      forall i | 0 <= i < |groups|
        ensures MarkedCount(groups[i]) == c <==> i in ix
      {
        assert i in ix <==> i in ix0 || i == n;
      }
    }
  }

  /** The first of the shortest groups of `c`. */
  function FirstShortest(c: seq<seq<Token>>): seq<Token>
    requires c != []
  {
    if |c| == 1 then c[0]
    else
      var b0 := FirstShortest(c[..|c| - 1]);
      if |c[|c| - 1]| < |b0| then c[|c| - 1] else b0
  }

  /** `c[k]` is no longer than any group of `c`, and strictly shorter than every one before it. */
  predicate IsFirstMinimum(c: seq<seq<Token>>, k: nat)
    requires k < |c|
  {
    (forall j :: 0 <= j < |c| ==> |c[k]| <= |c[j]|) && (forall j :: 0 <= j < k ==> |c[k]| < |c[j]|)
  }

  /** `FirstShortest` is the group at the first index of minimum length. */
  lemma {:induction false} FirstShortestIsFirstMinimum(c: seq<seq<Token>>) returns (k: nat)
    requires c != []
    ensures k < |c| && c[k] == FirstShortest(c) && IsFirstMinimum(c, k)
  {
    if |c| == 1 {
      k := 0;
    } else {
      var n := |c| - 1;
      var p := c[..n];
      var k0 := FirstShortestIsFirstMinimum(p);
      assert forall j :: 0 <= j < n ==> p[j] == c[j];
      if |c[n]| < |FirstShortest(p)| {
        k := n;
      } else {
        k := k0;
      }
    }
  }

  /**
   * `selectBestGroup`: an error for no groups; otherwise the first shortest of
   * the groups with the most marked tokens.
   */
  method SelectBestGroup(groups: seq<seq<Token>>) returns (r: Result<seq<Token>, string>)
    ensures groups == [] ==> r == Failure("No groups provided")
    ensures groups != [] ==> r == Success(FirstShortest(GroupsWithMaxMarked(groups)))
    ensures groups != [] ==> exists k :: 0 <= k < |groups| && IsFirstMaxShortest(groups, k) && r == Success(groups[k])
  {
    if |groups| == 0 {
      return Failure("No groups provided");
    }
    var candidates := GroupsWithMaxMarked(groups);
    var best := candidates[0];
    if |candidates| != 1 {
      var minTotal := |best|;
      assert candidates[..1] == [candidates[0]];
      for i := 1 to |candidates|
        invariant best == FirstShortest(candidates[..i]) && minTotal == |best|
      {
        assert candidates[..i + 1] == candidates[..i] + [candidates[i]];
        FirstShortestSnoc(candidates[..i], candidates[i]);
        if |candidates[i]| < minTotal {
          best := candidates[i];
          minTotal := |best|;
        }
      }
      assert candidates[..|candidates|] == candidates;
    }
    r := Success(best);
    ghost var k := SelectedGroupIsBest(groups);
  }

  /** One more group: it becomes the first shortest only when strictly shorter. */
  lemma FirstShortestSnoc(c: seq<seq<Token>>, x: seq<Token>)
    requires c != []
    ensures FirstShortest(c + [x]) == if |x| < |FirstShortest(c)| then x else FirstShortest(c)
  {
    assert (c + [x])[..|c|] == c;
  }

  /**
   * Group `k` has the most marked tokens, is no longer than any other such
   * group, and is strictly shorter than every such group before it.
   */
  predicate IsFirstMaxShortest(groups: seq<seq<Token>>, k: nat)
    requires k < |groups|
  {
    var m := MaxMarked(groups);
    MarkedCount(groups[k]) == m &&
    (forall j :: 0 <= j < |groups| && MarkedCount(groups[j]) == m ==> |groups[k]| <= |groups[j]|) &&
    (forall j :: 0 <= j < k && MarkedCount(groups[j]) == m ==> |groups[k]| < |groups[j]|)
  }

  /** The selected group is, in the order of `groups`, the first shortest of those with the most marked tokens. */
  lemma SelectedGroupIsBest(groups: seq<seq<Token>>) returns (k: nat)
    requires groups != []
    ensures k < |groups| && groups[k] == FirstShortest(GroupsWithMaxMarked(groups)) && IsFirstMaxShortest(groups, k)
  {
    var m := MaxMarked(groups);
    var c := GroupsWithMaxMarked(groups);
    assert c == WithMarkedCount(groups, m);
    var ix := WithMarkedCountIndices(groups, m);
    var q := FirstShortestIsFirstMinimum(c);
    k := ix[q];
    assert k in ix;
    forall j | 0 <= j < |groups| && MarkedCount(groups[j]) == m
      ensures |groups[k]| <= |groups[j]|
    {
      var l :| 0 <= l < |ix| && ix[l] == j;
      assert c[l] == groups[j];
    }
    forall j | 0 <= j < k && MarkedCount(groups[j]) == m
      ensures |groups[k]| < |groups[j]|
    {
      var l :| 0 <= l < |ix| && ix[l] == j;
      assert l < q;
      assert c[l] == groups[j];
    }
  }

  /** `anyMarked`: some result reports a non-empty list of newly marked indices. */
  function AnyMarked(results: seq<Option<seq<nat>>>): (b: bool)
    ensures b <==> exists i :: 0 <= i < |results| && results[i].Some? && results[i].value != []
  {
    if results == [] then false
    else
      assert forall i :: 1 <= i < |results| ==> results[i] == results[1..][i - 1];
      (results[0].Some? && results[0].value != []) || AnyMarked(results[1..])
  }

  // ---------------------------------------------------------------------------
  // markTokens, nested
  // ---------------------------------------------------------------------------

  /** What `markTokens` returns: one result for a flat array, one per group for nested ones. */
  datatype MarkOutcome = Single(matched: Option<seq<nat>>) | PerGroup(results: seq<Option<seq<nat>>>)

  function Contents(groups: seq<array<Token>>): (r: seq<seq<Token>>)
    reads set i | 0 <= i < |groups| :: groups[i]
    ensures |r| == |groups| && forall i :: 0 <= i < |groups| ==> r[i] == groups[i][..]
  {
    if groups == [] then [] else [groups[0][..]] + Contents(groups[1..])
  }

  /** The groups are separate arrays. */
  predicate Separate(groups: seq<array<Token>>) {
    forall i, j :: 0 <= i < j < |groups| ==> groups[i] != groups[j]
  }

  /**
   * The nested `markTokens`: a group with the most marked tokens is marked as
   * the flat case does; every other group gets `{matched: null}` and is left
   * alone. An empty list is not recognised as nested and goes the flat way.
   */
  method MarkTokensNested(groups: seq<array<Token>>, str: string) returns (out: MarkOutcome)
    requires Separate(groups)
    modifies set i | 0 <= i < |groups| :: groups[i]
    ensures groups == [] ==> out == Single(if str == "" then Some([]) else None)
    ensures groups != [] ==> out.PerGroup? && |out.results| == |groups|
    ensures groups != [] ==> forall i :: 0 <= i < |groups| ==>
      if MarkedCount(old(groups[i][..])) == MaxMarked(old(Contents(groups))) then
        out.results[i] == MatchedFor(old(groups[i][..]), str) &&
        groups[i][..] == MarkedFor(old(groups[i][..]), str)
      else
        out.results[i].None? && groups[i][..] == old(groups[i][..])
  {
    if |groups| == 0 {
      return Single(MatchedFor([], str));
    }
    // The candidate groups are chosen before any group is marked.
    var snapshot := Contents(groups);
    var selected := CandidatesByInclusion(snapshot);
    var results := MarkSelected(groups, selected, str);
    return PerGroup(results);
  }

  /**
   * `candidateGroups.includes(g)` for every group: whether it is among the
   * groups with the most marked tokens.
   */
  function CandidatesByInclusion(groups: seq<seq<Token>>): (r: seq<bool>)
    ensures |r| == |groups|
    ensures forall j :: 0 <= j < |groups| ==> (r[j] <==> MarkedCount(groups[j]) == MaxMarked(groups))
  {
    var candidates := GroupsWithMaxMarked(groups);
    seq(|groups|, j requires 0 <= j < |groups| => groups[j] in candidates)
  }

  /** The `groups.map` of the nested `markTokens`, given which groups are candidates. */
  method MarkSelected(groups: seq<array<Token>>, selected: seq<bool>, str: string)
    returns (results: seq<Option<seq<nat>>>)
    requires Separate(groups) && |selected| == |groups|
    modifies set i | 0 <= i < |groups| :: groups[i]
    ensures |results| == |groups|
    ensures forall j :: 0 <= j < |groups| ==>
      if selected[j] then
        results[j] == MatchedFor(old(groups[j][..]), str) && groups[j][..] == MarkedFor(old(groups[j][..]), str)
      else
        results[j].None? && groups[j][..] == old(groups[j][..])
  {
    results := [];
    for i := 0 to |groups|
      invariant |results| == i
      invariant forall j :: 0 <= j < i ==>
        if selected[j] then
          results[j] == MatchedFor(old(groups[j][..]), str) && groups[j][..] == MarkedFor(old(groups[j][..]), str)
        else
          results[j].None? && groups[j][..] == old(groups[j][..])
      invariant forall j :: i <= j < |groups| ==> groups[j][..] == old(groups[j][..])
    {
      if selected[i] {
        var r := MarkTokens(groups[i], str);
        results := results + [r];
      } else {
        results := results + [None];
      }
    }
  }

  // ---------------------------------------------------------------------------
  // Completion
  // ---------------------------------------------------------------------------

  /** `isCompleted`: every token is punctuation (pos 記号) or marked. */
  function IsCompleted(tokens: seq<Token>): (b: bool)
    ensures b <==> forall i :: 0 <= i < |tokens| ==> tokens[i].pos == Some("記号") || tokens[i].marked
  {
    if tokens == [] then true
    else
      assert forall i :: 1 <= i < |tokens| ==> tokens[i] == tokens[1..][i - 1];
      (tokens[0].pos == Some("記号") || tokens[0].marked) && IsCompleted(tokens[1..])
  }

  /** Marking never makes a completed answer incomplete. */
  lemma MarkingKeepsCompleted(s: seq<Token>, str: string)
    requires IsCompleted(s)
    ensures IsCompleted(MarkedFor(s, str))
  {
    MarkTokensKeepsTokens(s, str);
    var t := MarkedFor(s, str);
    forall i | 0 <= i < |t|
      ensures t[i].pos == Some("記号") || t[i].marked
    {
      assert t[i].pos == t[i].(marked := s[i].marked).pos == s[i].pos;
    }
  }

  /** The published build's punctuation tags; a token is punctuation if its pos starts with one. */
  const PunctuationPos: seq<string> := ["記号", "aux-symbol", "aux-symbol:period", "aux-symbol:comma"]

  function StartsWithAny(s: string, prefixes: seq<string>): (b: bool)
    ensures b <==> exists k :: 0 <= k < |prefixes| && JsText.StartsWith(s, prefixes[k])
  {
    if prefixes == [] then false
    else
      assert forall k :: 1 <= k < |prefixes| ==> prefixes[k] == prefixes[1..][k - 1];
      JsText.StartsWith(s, prefixes[0]) || StartsWithAny(s, prefixes[1..])
  }

  /** Whether the part of speech starts with one of the punctuation tags; false for a missing pos. */
  predicate IsPunctuationPublished(pos: Option<string>) {
    pos.Some? && StartsWithAny(pos.value, PunctuationPos)
  }

  /** `isCompleted` of the published build. */
  function IsCompletedPublished(tokens: seq<Token>): (b: bool)
    ensures b <==> forall i :: 0 <= i < |tokens| ==> IsPunctuationPublished(tokens[i].pos) || tokens[i].marked
  {
    if tokens == [] then true
    else
      assert forall i :: 1 <= i < |tokens| ==> tokens[i] == tokens[1..][i - 1];
      (IsPunctuationPublished(tokens[0].pos) || tokens[0].marked) && IsCompletedPublished(tokens[1..])
  }

  /** The published test accepts everything the source test accepts. */
  lemma CompletedImpliesCompletedPublished(tokens: seq<Token>)
    requires IsCompleted(tokens)
    ensures IsCompletedPublished(tokens)
  {
    forall i | 0 <= i < |tokens| && !tokens[i].marked
      ensures IsPunctuationPublished(tokens[i].pos)
    {
      assert JsText.StartsWith(tokens[i].pos.value, PunctuationPos[0]);
    }
  }

  /** A token whose pos is undefined counts as done in the published build only when marked. */
  lemma PublishedUndefinedPosMustBeMarked(t: Token)
    requires t.pos.None?
    ensures IsCompletedPublished([t]) <==> t.marked
  {
  }

  // ---------------------------------------------------------------------------
  // parseEnglishString
  // ---------------------------------------------------------------------------

  /** The word class of the scanner: `\w` in the source, `[a-zA-Z0-9_']` in the published build. */
  datatype WordClass = PlainWord | WordWithApostrophe

  predicate IsWordChar(c: char, wc: WordClass) {
    ('a' <= c <= 'z') || ('A' <= c <= 'Z') || ('0' <= c <= '9') || c == '_' ||
    (wc == WordWithApostrophe && c == '\'')
  }

  /** A word of the English prompt and the furigana attached to it ("" if none). */
  datatype EnglishPart = EnglishPart(englishWord: string, furigana: string)

  /** The first index at or after `i` holding a word character, or `|s|`. */
  function NextWordStart(s: string, i: nat, wc: WordClass): (p: nat)
    requires i <= |s|
    ensures i <= p <= |s| && (p < |s| ==> IsWordChar(s[p], wc))
    ensures forall k :: i <= k < p ==> !IsWordChar(s[k], wc)
    decreases |s| - i
  {
    if i == |s| || IsWordChar(s[i], wc) then i else NextWordStart(s, i + 1, wc)
  }

  /** The end of the run of word characters starting at `i`. */
  function WordEnd(s: string, i: nat, wc: WordClass): (e: nat)
    requires i <= |s|
    ensures i <= e <= |s| && (e < |s| ==> !IsWordChar(s[e], wc))
    ensures forall k :: i <= k < e ==> IsWordChar(s[k], wc)
    decreases |s| - i
  {
    if i == |s| || !IsWordChar(s[i], wc) then i else WordEnd(s, i + 1, wc)
  }

  /** The end of the run of white space starting at `i` (`\s*`). */
  function SpaceEnd(s: string, i: nat): (e: nat)
    requires i <= |s|
    ensures i <= e <= |s| && (e < |s| ==> !JsText.IsJsWhitespace(s[e]))
    ensures forall k :: i <= k < e ==> JsText.IsJsWhitespace(s[k])
    decreases |s| - i
  {
    if i == |s| || !JsText.IsJsWhitespace(s[i]) then i else SpaceEnd(s, i + 1)
  }

  /** The first index at or after `i` holding ']', or `|s|`. */
  function CloseBracket(s: string, i: nat): (c: nat)
    requires i <= |s|
    ensures i <= c <= |s| && (c < |s| ==> s[c] == ']')
    ensures forall k :: i <= k < c ==> s[k] != ']'
    decreases |s| - i
  {
    if i == |s| || s[i] == ']' then i else CloseBracket(s, i + 1)
  }

  /** One match of the scanner's pattern: the word, its furigana, and where the match ends. */
  datatype WordMatch = WordMatch(word: string, furigana: string, end: nat)

  /**
   * `regex.exec(eng)` with `lastIndex` at `i`: the leftmost match of
   * word, white space, then an optional non-empty `[...]` group.
   */
  function ExecFrom(s: string, i: nat, wc: WordClass): (m: Option<WordMatch>)
    requires i <= |s|
    ensures m.None? <==> forall k :: i <= k < |s| ==> !IsWordChar(s[k], wc)
    ensures m.Some? ==>
      (i < m.value.end <= |s| && m.value.word != [] &&
       (forall k :: 0 <= k < |m.value.word| ==> IsWordChar(m.value.word[k], wc)) &&
       ']' !in m.value.furigana)
  {
    var p := NextWordStart(s, i, wc);
    if p == |s| then None
    else
      var e := WordEnd(s, p, wc);
      var w := SpaceEnd(s, e);
      if w < |s| && s[w] == '[' then
        var c := CloseBracket(s, w + 1);
        if w + 1 < c < |s| then Some(WordMatch(s[p..e], s[w + 1..c], c + 1))
        else Some(WordMatch(s[p..e], "", w))
      else Some(WordMatch(s[p..e], "", w))
  }

  /** The parts the scanner yields from index `i` on. */
  function ParseFrom(s: string, i: nat, wc: WordClass): seq<EnglishPart>
    requires i <= |s|
    decreases |s| - i
  {
    match ExecFrom(s, i, wc)
    case None => []
    case Some(m) => [EnglishPart(m.word, m.furigana)] + ParseFrom(s, m.end, wc)
  }

  /** One scanner step keeps the loop's account: the parts so far, the match's part, then the parts after it. */
  lemma ParseFromStep(s: string, i: nat, wc: WordClass, parts: seq<EnglishPart>)
    requires i <= |s| && ExecFrom(s, i, wc).Some?
    ensures var m := ExecFrom(s, i, wc).value;
      (parts + [EnglishPart(m.word, m.furigana)]) + ParseFrom(s, m.end, wc) == parts + ParseFrom(s, i, wc)
  {
    var m := ExecFrom(s, i, wc).value;
    ParseFromUnfold(s, i, wc);
    var rest := ParseFrom(s, m.end, wc);
    assert parts + ([EnglishPart(m.word, m.furigana)] + rest) == (parts + [EnglishPart(m.word, m.furigana)]) + rest;
  }

  lemma ParseFromUnfold(s: string, i: nat, wc: WordClass)
    requires i <= |s| && ExecFrom(s, i, wc).Some?
    ensures var m := ExecFrom(s, i, wc).value;
      ParseFrom(s, i, wc) == [EnglishPart(m.word, m.furigana)] + ParseFrom(s, m.end, wc)
  {
  }

  /** `parseEnglishString`, the source's `\w` scanner or the published one. */
  method ParseEnglishString(eng: string, wc: WordClass) returns (parts: seq<EnglishPart>)
    ensures parts == ParseFrom(eng, 0, wc)
    ensures forall written :: AllReadable(written, wc) && eng == Render(written) ==> parts == written
  {
    parts := [];
    var lastIndex := 0;
    var m := ExecFrom(eng, lastIndex, wc);
    while m.Some?
      invariant lastIndex <= |eng| && m == ExecFrom(eng, lastIndex, wc)
      invariant parts + ParseFrom(eng, lastIndex, wc) == ParseFrom(eng, 0, wc)
      decreases |eng| - lastIndex
    {
      ParseFromStep(eng, lastIndex, wc, parts);
      parts := parts + [EnglishPart(m.value.word, m.value.furigana)];
      lastIndex := m.value.end;
      m := ExecFrom(eng, lastIndex, wc);
    }
    assert ParseFrom(eng, lastIndex, wc) == [];
    forall written | AllReadable(written, wc) && eng == Render(written)
      ensures parts == written
    {
      ParseEnglishRoundTrip(written, wc);
    }
  }

  /** The maximal runs of word characters of `s`, in order: a reference for the scanner. */
  function WordRuns(s: string, wc: WordClass): seq<string>
    decreases |s|
  {
    if s == [] then []
    else if !IsWordChar(s[0], wc) then WordRuns(s[1..], wc)
    else
      var e := WordEnd(s, 0, wc);
      [s[..e]] + WordRuns(s[e..], wc)
  }

  function Words(parts: seq<EnglishPart>): seq<string> {
    if parts == [] then [] else [parts[0].englishWord] + Words(parts[1..])
  }

  predicate NoFurigana(parts: seq<EnglishPart>) {
    forall k :: 0 <= k < |parts| ==> parts[k].furigana == ""
  }

  /** Characters with no word character among them do not change the runs. */
  lemma {:induction false} WordRunsSkip(s: string, i: nat, p: nat, wc: WordClass)
    requires i <= p <= |s|
    requires forall k :: i <= k < p ==> !IsWordChar(s[k], wc)
    ensures WordRuns(s[i..], wc) == WordRuns(s[p..], wc)
    decreases p - i
  {
    if i < p {
      assert s[i..][1..] == s[i + 1..];
      WordRunsSkip(s, i + 1, p, wc);
    }
  }

  /** `WordEnd` is the only index with its two properties. */
  lemma {:induction false} WordEndUnique(s: string, i: nat, e: nat, wc: WordClass)
    requires i <= e <= |s| && (e < |s| ==> !IsWordChar(s[e], wc))
    requires forall k :: i <= k < e ==> IsWordChar(s[k], wc)
    ensures WordEnd(s, i, wc) == e
    decreases e - i
  {
    if i < e {
      WordEndUnique(s, i + 1, e, wc);
    }
  }

  /** `NextWordStart` is the only index with its two properties. */
  lemma {:induction false} NextWordStartUnique(s: string, i: nat, p: nat, wc: WordClass)
    requires i <= p <= |s| && (p < |s| ==> IsWordChar(s[p], wc))
    requires forall k :: i <= k < p ==> !IsWordChar(s[k], wc)
    ensures NextWordStart(s, i, wc) == p
    decreases p - i
  {
    if i < p {
      NextWordStartUnique(s, i + 1, p, wc);
    }
  }

  /** The run starting at a word character. */
  lemma {:induction false} WordRunsAt(s: string, p: nat, wc: WordClass)
    requires p < |s| && IsWordChar(s[p], wc)
    ensures WordRuns(s[p..], wc) == [s[p..WordEnd(s, p, wc)]] + WordRuns(s[WordEnd(s, p, wc)..], wc)
  {
    var e := WordEnd(s, p, wc);
    var t := s[p..];
    forall k | 0 <= k < e - p
      ensures IsWordChar(t[k], wc)
    {
      assert t[k] == s[p + k];
    }
    if e < |s| {
      assert t[e - p] == s[e];
    }
    WordEndUnique(t, 0, e - p, wc);
    assert t[0] == s[p];
    assert WordRuns(t, wc) == [t[..e - p]] + WordRuns(t[e - p..], wc);
    assert t[..e - p] == s[p..e];
    assert t[e - p..] == s[e..];
  }

  /** Without a '[' ahead, a match is the word and the white space after it. */
  lemma {:induction false} ExecWithoutBracket(s: string, i: nat, wc: WordClass)
    requires i <= |s| && '[' !in s[i..] && NextWordStart(s, i, wc) < |s|
    ensures var p := NextWordStart(s, i, wc);
      var e := WordEnd(s, p, wc);
      ExecFrom(s, i, wc) == Some(WordMatch(s[p..e], "", SpaceEnd(s, e)))
  {
    var w := SpaceEnd(s, WordEnd(s, NextWordStart(s, i, wc), wc));
    if w < |s| {
      assert s[i..][w - i] == s[w];
    }
  }

  /** `CloseBracket` is the only index with its two properties. */
  lemma {:induction false} CloseBracketUnique(s: string, i: nat, c: nat)
    requires i <= c <= |s| && (c < |s| ==> s[c] == ']')
    requires forall k :: i <= k < c ==> s[k] != ']'
    ensures CloseBracket(s, i) == c
    decreases c - i
  {
    if i < c {
      CloseBracketUnique(s, i + 1, c);
    }
  }

  /** `SpaceEnd` is the only index with its two properties. */
  lemma {:induction false} SpaceEndUnique(s: string, i: nat, e: nat)
    requires i <= e <= |s| && (e < |s| ==> !JsText.IsJsWhitespace(s[e]))
    requires forall k :: i <= k < e ==> JsText.IsJsWhitespace(s[k])
    ensures SpaceEnd(s, i) == e
    decreases e - i
  {
    if i < e {
      SpaceEndUnique(s, i + 1, e);
    }
  }

  /**
   * With a '[' right after the word and its white space, and a ']' closing a
   * non-empty group, the match carries what lies between them as furigana and
   * ends after the ']'.
   */
  lemma ExecWithBracket(s: string, i: nat, wc: WordClass, c: nat)
    requires i <= |s| && NextWordStart(s, i, wc) < |s|
    requires var w := SpaceEnd(s, WordEnd(s, NextWordStart(s, i, wc), wc));
      w < |s| && s[w] == '[' && w + 1 < c < |s| && s[c] == ']' && ']' !in s[w + 1..c]
    ensures var p := NextWordStart(s, i, wc);
      var e := WordEnd(s, p, wc);
      var w := SpaceEnd(s, e);
      ExecFrom(s, i, wc) == Some(WordMatch(s[p..e], s[w + 1..c], c + 1))
  {
    var w := SpaceEnd(s, WordEnd(s, NextWordStart(s, i, wc), wc));
    forall k | w + 1 <= k < c
      ensures s[k] != ']'
    {
      assert s[w + 1..c][k - (w + 1)] == s[k];
    }
    CloseBracketUnique(s, w + 1, c);
  }

  /** The text of one part as a prompt writes it: the word, its furigana in brackets if any, and a space. */
  function RenderPart(part: EnglishPart): string {
    part.englishWord + (if part.furigana != "" then "[" + part.furigana + "]" else "") + " "
  }

  /** A prompt written from its parts. */
  function Render(parts: seq<EnglishPart>): string {
    if parts == [] then "" else RenderPart(parts[0]) + Render(parts[1..])
  }

  /** A part the scanner can read back: a non-empty word of word characters, furigana without ']'. */
  predicate Readable(part: EnglishPart, wc: WordClass) {
    part.englishWord != [] &&
    (forall k :: 0 <= k < |part.englishWord| ==> IsWordChar(part.englishWord[k], wc)) &&
    ']' !in part.furigana
  }

  predicate AllReadable(parts: seq<EnglishPart>, wc: WordClass) {
    forall k :: 0 <= k < |parts| ==> Readable(parts[k], wc)
  }

  /** A character that is not a word character leaves the scanner's parts unchanged. */
  lemma ParseFromSkip(s: string, j: nat, next: nat, wc: WordClass)
    requires j < |s| && !IsWordChar(s[j], wc) && next == j + 1
    ensures ParseFrom(s, j, wc) == ParseFrom(s, next, wc)
  {
    ExecSkip(s, j, next, wc);
    if ExecFrom(s, j, wc).Some? {
      ParseFromUnfold(s, j, wc);
      ParseFromUnfold(s, next, wc);
    }
  }

  lemma ExecSkip(s: string, j: nat, next: nat, wc: WordClass)
    requires j < |s| && !IsWordChar(s[j], wc) && next == j + 1
    ensures ExecFrom(s, j, wc) == ExecFrom(s, next, wc)
  {
    var p := NextWordStart(s, next, wc);
    NextWordStartUnique(s, j, p, wc);
    ExecSameStart(s, j, next, wc);
  }

  /** The match depends on the starting index only through the next word start. */
  lemma ExecSameStart(s: string, i: nat, i2: nat, wc: WordClass)
    requires i <= |s| && i2 <= |s| && NextWordStart(s, i, wc) == NextWordStart(s, i2, wc)
    ensures ExecFrom(s, i, wc) == ExecFrom(s, i2, wc)
  {
  }

  /** Where the pieces of a rendered part sit. */
  lemma RenderPartShape(part: EnglishPart)
    ensures var r := RenderPart(part);
      var n := |part.englishWord|;
      var f := part.furigana;
      r[..n] == part.englishWord &&
      (f == "" ==> |r| == n + 1 && r[n] == ' ') &&
      (f != "" ==>
         |r| == n + |f| + 3 && r[n] == '[' && r[n + 1..n + 1 + |f|] == f &&
         r[n + 1 + |f|] == ']' && r[n + 2 + |f|] == ' ')
  {
  }

  /** A text that starts at `i` with `a + b` holds `a` there and `b` after it. */
  lemma SliceAt(s: string, i: nat, a: string, b: string)
    requires i <= |s| && s[i..] == a + b
    ensures i + |a| <= |s| && s[i..i + |a|] == a && s[i + |a|..] == b
    ensures forall k :: 0 <= k < |a| ==> s[i + k] == a[k]
  {
    forall k | 0 <= k < |a|
      ensures s[i + k] == a[k]
    {
      assert s[i..][k] == (a + b)[k];
    }
  }

  /** A word starting at `i` and ending at `i + n`, where white space runs to `w`. */
  lemma ExecWord(s: string, i: nat, n: nat, w: nat, wc: WordClass)
    requires 0 < n && i + n <= w <= |s| && (w < |s| ==> !JsText.IsJsWhitespace(s[w]))
    requires forall k :: i <= k < i + n ==> IsWordChar(s[k], wc)
    requires i + n < |s| ==> !IsWordChar(s[i + n], wc)
    requires forall k :: i + n <= k < w ==> JsText.IsJsWhitespace(s[k])
    ensures NextWordStart(s, i, wc) == i && WordEnd(s, i, wc) == i + n && SpaceEnd(s, i + n) == w
  {
    NextWordStartUnique(s, i, i, wc);
    WordEndUnique(s, i, i + n, wc);
    SpaceEndUnique(s, i + n, w);
  }

  lemma SliceRest(s: string, i: nat, a: string, b: string)
    requires i <= |s| && s[i..] == a + b
    ensures i + |a| <= |s| && s[i + |a|..] == b
  {
    assert s[i + |a|..] == s[i..][|a|..];
  }

  /** The scanner reads one rendered part back, and goes on at the text after it. */
  lemma ParsePart(s: string, i: nat, part: EnglishPart, rest: string, wc: WordClass) returns (j: nat)
    requires Readable(part, wc) && i <= |s| && s[i..] == RenderPart(part) + rest
    requires rest != [] ==> IsWordChar(rest[0], wc)
    ensures j <= |s| && s[j..] == rest
    ensures ParseFrom(s, i, wc) == [part] + ParseFrom(s, j, wc)
  {
    var r := RenderPart(part);
    var n := |part.englishWord|;
    j := i + |r|;
    RenderPartShape(part);
    SliceAt(s, i, r, rest);
    assert s[i..i + n] == part.englishWord by {
      assert s[i..i + n] == s[i..j][..n];
    }
    if part.furigana == "" {
      assert s[j - 1] == r[n];
      if j < |s| {
        assert s[j] == s[j..][0];
      }
      ParsePlainPart(s, i, part, j, wc);
    } else {
      var c := i + n + 1 + |part.furigana|;
      assert s[i + n + 1..c] == part.furigana by {
        assert s[i + n + 1..c] == s[i..j][n + 1..n + 1 + |part.furigana|];
      }
      assert s[c] == r[n + 1 + |part.furigana|] && s[c + 1] == r[n + 2 + |part.furigana|];
      ParseBracketPart(s, i, i + n, c, j, part, wc);
    }
  }

  lemma ParsePlainPart(s: string, i: nat, part: EnglishPart, j: nat, wc: WordClass)
    requires Readable(part, wc) && part.furigana == "" && j == i + |part.englishWord| + 1 <= |s|
    requires s[i..i + |part.englishWord|] == part.englishWord && s[j - 1] == ' '
    requires j < |s| ==> IsWordChar(s[j], wc)
    ensures ParseFrom(s, i, wc) == [part] + ParseFrom(s, j, wc)
  {
    var n := |part.englishWord|;
    forall k | i <= k < i + n
      ensures IsWordChar(s[k], wc)
    {
      assert s[k] == s[i..i + n][k - i];
    }
    ExecWord(s, i, n, j, wc);
    assert ExecFrom(s, i, wc) == Some(WordMatch(part.englishWord, "", j));
    ParseFromUnfold(s, i, wc);
  }

  lemma ParseBracketPart(s: string, i: nat, e: nat, c: nat, j: nat, part: EnglishPart, wc: WordClass)
    requires Readable(part, wc) && part.furigana != ""
    requires i < e && e + 1 < c && j == c + 2 <= |s|
    requires s[i..e] == part.englishWord && s[e] == '[' && s[e + 1..c] == part.furigana
    requires s[c] == ']' && s[c + 1] == ' '
    ensures ParseFrom(s, i, wc) == [part] + ParseFrom(s, j, wc)
  {
    var m := WordMatch(part.englishWord, part.furigana, c + 1);
    ExecBracketPart(s, i, e, c, part, wc);
    ParseAfterMatch(s, i, m, wc);
    ParseFromSkip(s, m.end, j, wc);
  }

  /** The parts from `i` on: the match's part, then the parts after the match. */
  lemma ParseAfterMatch(s: string, i: nat, m: WordMatch, wc: WordClass)
    requires i <= |s| && ExecFrom(s, i, wc) == Some(m)
    ensures m.end <= |s| && ParseFrom(s, i, wc) == [EnglishPart(m.word, m.furigana)] + ParseFrom(s, m.end, wc)
  {
  }

  lemma ExecBracketPart(s: string, i: nat, e: nat, c: nat, part: EnglishPart, wc: WordClass)
    requires Readable(part, wc) && part.furigana != ""
    requires i < e && e + 1 < c && c + 1 < |s|
    requires s[i..e] == part.englishWord && s[e] == '[' && s[e + 1..c] == part.furigana
    requires s[c] == ']'
    ensures ExecFrom(s, i, wc) == Some(WordMatch(part.englishWord, part.furigana, c + 1))
  {
    forall k | i <= k < e
      ensures IsWordChar(s[k], wc)
    {
      assert s[k] == s[i..e][k - i];
    }
    ExecWord(s, i, e - i, e, wc);
    ExecWithBracket(s, i, wc, c);
  }

  /** A rendered prompt of readable parts is empty or starts with a word character. */
  lemma RenderStart(parts: seq<EnglishPart>, wc: WordClass)
    requires AllReadable(parts, wc)
    ensures Render(parts) != [] ==> IsWordChar(Render(parts)[0], wc)
  {
    if parts != [] {
      assert Readable(parts[0], wc);
      RenderPartShape(parts[0]);
      var r := RenderPart(parts[0]);
      assert Render(parts)[0] == r[0] == r[..|parts[0].englishWord|][0];
    }
  }

  lemma ParseAtEnd(s: string, i: nat, wc: WordClass)
    requires i <= |s| && s[i..] == []
    ensures ParseFrom(s, i, wc) == []
  {
    assert i == |s|;
    assert NextWordStart(s, i, wc) == |s|;
  }

  lemma ReadableSplit(parts: seq<EnglishPart>, wc: WordClass)
    requires AllReadable(parts, wc) && parts != []
    ensures Readable(parts[0], wc) && AllReadable(parts[1..], wc)
  {
    forall k | 0 <= k < |parts| - 1
      ensures Readable(parts[1..][k], wc)
    {
      assert parts[1..][k] == parts[k + 1];
    }
  }

  /** Reading a rendered prompt gives back its parts, furigana included. */
  lemma {:induction false} ParseRender(s: string, i: nat, parts: seq<EnglishPart>, wc: WordClass)
    requires AllReadable(parts, wc) && i <= |s| && s[i..] == Render(parts)
    ensures ParseFrom(s, i, wc) == parts
    decreases |parts|
  {
    if parts == [] {
      ParseAtEnd(s, i, wc);
    } else {
      var j := ParseRenderStep(s, i, parts, wc);
      ParseRender(s, j, parts[1..], wc);
      ParseCons(s, i, j, parts, wc);
    }
  }

  lemma ParseCons(s: string, i: nat, j: nat, parts: seq<EnglishPart>, wc: WordClass)
    requires i <= |s| && j <= |s| && parts != []
    requires ParseFrom(s, i, wc) == [parts[0]] + ParseFrom(s, j, wc)
    requires ParseFrom(s, j, wc) == parts[1..]
    ensures ParseFrom(s, i, wc) == parts
  {
    assert parts == [parts[0]] + parts[1..];
  }

  /** One rendered part read back, and the rest of the text rendering the remaining parts. */
  lemma ParseRenderStep(s: string, i: nat, parts: seq<EnglishPart>, wc: WordClass) returns (j: nat)
    requires AllReadable(parts, wc) && parts != [] && i <= |s| && s[i..] == Render(parts)
    ensures j <= |s| && s[j..] == Render(parts[1..]) && AllReadable(parts[1..], wc)
    ensures ParseFrom(s, i, wc) == [parts[0]] + ParseFrom(s, j, wc)
  {
    ReadableSplit(parts, wc);
    RenderStart(parts[1..], wc);
    j := ParsePart(s, i, parts[0], Render(parts[1..]), wc);
  }

  /** `parseEnglishString` reads back every prompt written from readable parts. */
  lemma ParseEnglishRoundTrip(parts: seq<EnglishPart>, wc: WordClass)
    requires AllReadable(parts, wc)
    ensures ParseFrom(Render(parts), 0, wc) == parts
  {
    var s := Render(parts);
    assert s[0..] == s;
    ParseRender(s, 0, parts, wc);
  }

  /** The source's test prompt: a word with furigana, then a word without. */
  lemma ParseHelloWorld(s: string)
    requires s == "Hello[konnichiwa] world"
    ensures ParseFrom(s, 0, PlainWord) == [EnglishPart("Hello", "konnichiwa"), EnglishPart("world", "")]
  {
    HelloWorldShape(s);
    ParseHelloWorldShape(s);
  }

  predicate HelloWorldShaped(s: string) {
    |s| == 23 && s[0..5] == "Hello" && s[5] == '[' && s[6..16] == "konnichiwa" &&
    s[16] == ']' && s[17] == ' ' && s[18..23] == "world" &&
    forall k :: 18 <= k < 23 ==> IsWordChar(s[k], PlainWord)
  }

  lemma HelloWorldShape(s: string)
    requires s == "Hello[konnichiwa] world"
    ensures HelloWorldShaped(s)
  {
    assert s[0..5] == "Hello" && s[6..16] == "konnichiwa" && s[18..23] == "world";
    forall k | 18 <= k < 23
      ensures IsWordChar(s[k], PlainWord)
    {
      assert s[k] == "world"[k - 18];
    }
  }

  lemma ParseHelloWorldShape(s: string)
    requires HelloWorldShaped(s)
    ensures ParseFrom(s, 0, PlainWord) == [EnglishPart("Hello", "konnichiwa"), EnglishPart("world", "")]
  {
    var hello := EnglishPart("Hello", "konnichiwa");
    var world := WordMatch("world", "", 23);
    ParseBracketPart(s, 0, 5, 16, 18, hello, PlainWord);
    ExecWord(s, 18, 5, 23, PlainWord);
    assert ExecFrom(s, 18, PlainWord) == Some(world);
    ParseAfterMatch(s, 18, world, PlainWord);
    ParseAtEnd(s, 23, PlainWord);
  }

  /** White space holds no word character. */
  lemma SpaceIsNoWord(s: string, e: nat, wc: WordClass)
    requires e <= |s|
    ensures forall k :: e <= k < SpaceEnd(s, e) ==> !IsWordChar(s[k], wc)
  {
  }

  /** Without any '[' the scanner yields exactly the maximal word runs. */
  lemma {:induction false} ParseWithoutBrackets(s: string, i: nat, wc: WordClass)
    requires i <= |s| && '[' !in s[i..]
    ensures Words(ParseFrom(s, i, wc)) == WordRuns(s[i..], wc)
    decreases |s| - i
  {
    var p := NextWordStart(s, i, wc);
    WordRunsSkip(s, i, p, wc);
    if p < |s| {
      var e := WordEnd(s, p, wc);
      var w := SpaceEnd(s, e);
      ExecWithoutBracket(s, i, wc);
      WordRunsAt(s, p, wc);
      SpaceIsNoWord(s, e, wc);
      WordRunsSkip(s, e, w, wc);
      assert s[w..] == s[i..][w - i..];
      ParseWithoutBrackets(s, w, wc);
      ParseFromUnfold(s, i, wc);
      WordsCons(EnglishPart(s[p..e], ""), ParseFrom(s, w, wc));
    } else {
      assert s[p..] == [];
    }
  }

  lemma WordsCons(head: EnglishPart, rest: seq<EnglishPart>)
    ensures Words([head] + rest) == [head.englishWord] + Words(rest)
  {
    assert ([head] + rest)[1..] == rest;
  }

  /** Without any '[' every part the scanner yields has empty furigana. */
  lemma {:induction false} NoFuriganaWithoutBrackets(s: string, i: nat, wc: WordClass)
    requires i <= |s| && '[' !in s[i..]
    ensures NoFurigana(ParseFrom(s, i, wc))
    decreases |s| - i
  {
    var p := NextWordStart(s, i, wc);
    if p < |s| {
      var w := SpaceEnd(s, WordEnd(s, p, wc));
      ExecWithoutBracket(s, i, wc);
      assert s[w..] == s[i..][w - i..];
      NoFuriganaWithoutBrackets(s, w, wc);
      ParseFromUnfold(s, i, wc);
      NoFuriganaCons(EnglishPart(s[p..WordEnd(s, p, wc)], ""), ParseFrom(s, w, wc));
    }
  }

  lemma NoFuriganaCons(head: EnglishPart, rest: seq<EnglishPart>)
    requires head.furigana == "" && NoFurigana(rest)
    ensures NoFurigana([head] + rest)
  {
    forall k | 1 <= k < |[head] + rest|
      ensures ([head] + rest)[k].furigana == ""
    {
      assert ([head] + rest)[k] == rest[k - 1];
    }
  }

  /** With no apostrophe in `s` the two word classes find the same match. */
  lemma ExecAgreeWithoutApostrophe(s: string, i: nat)
    requires i <= |s| && '\'' !in s
    ensures ExecFrom(s, i, PlainWord) == ExecFrom(s, i, WordWithApostrophe)
  {
    var p := NextWordStart(s, i, WordWithApostrophe);
    SameClassWithoutApostrophe(s);
    NextWordStartUnique(s, i, p, PlainWord);
    if p < |s| {
      WordEndUnique(s, p, WordEnd(s, p, WordWithApostrophe), PlainWord);
    }
    ExecSameRuns(s, i);
  }

  lemma SameClassWithoutApostrophe(s: string)
    requires '\'' !in s
    ensures forall k :: 0 <= k < |s| ==> (IsWordChar(s[k], PlainWord) <==> IsWordChar(s[k], WordWithApostrophe))
  {
  }

  /** The match depends on the word class only through where the word starts and ends. */
  lemma ExecSameRuns(s: string, i: nat)
    requires i <= |s|
    requires NextWordStart(s, i, PlainWord) == NextWordStart(s, i, WordWithApostrophe)
    requires var p := NextWordStart(s, i, PlainWord);
      p < |s| ==> WordEnd(s, p, PlainWord) == WordEnd(s, p, WordWithApostrophe)
    ensures ExecFrom(s, i, PlainWord) == ExecFrom(s, i, WordWithApostrophe)
  {
  }

  /** On text without apostrophes the two scanners agree. */
  lemma {:induction false} ScannersAgreeWithoutApostrophe(s: string, i: nat)
    requires i <= |s| && '\'' !in s
    ensures ParseFrom(s, i, PlainWord) == ParseFrom(s, i, WordWithApostrophe)
    decreases |s| - i
  {
    ExecAgreeWithoutApostrophe(s, i);
    var m := ExecFrom(s, i, PlainWord);
    if m.Some? {
      ScannersAgreeWithoutApostrophe(s, m.value.end);
    }
  }

  // ---------------------------------------------------------------------------
  // makeQuestion
  // ---------------------------------------------------------------------------

  /** An English prompt, its acceptable Japanese answers and their parsed token groups. */
  datatype Question = Question(english: string, japanese: seq<string>, parsed: seq<seq<Token>>)

  /** An unmarked answer token copied from a tokenizer morpheme. */
  function FromMorpheme(m: Morphemes.Morpheme): Token {
    Token(m.surface, m.reading, Some(m.pos), false)
  }

  function FromGroup(g: Morphemes.Group): (r: seq<Token>)
    ensures |r| == |g| && forall j :: 0 <= j < |g| ==> r[j] == FromMorpheme(g[j])
  {
    if g == [] then [] else [FromMorpheme(g[0])] + FromGroup(g[1..])
  }

  function FromGroups(gs: seq<Morphemes.Group>): (r: seq<seq<Token>>)
    ensures |r| == |gs| && forall i :: 0 <= i < |gs| ==> r[i] == FromGroup(gs[i])
  {
    if gs == [] then [] else [FromGroup(gs[0])] + FromGroups(gs[1..])
  }

  function TokenizeAll(japanese: seq<string>, tokenize: string -> Morphemes.Group): (r: seq<Morphemes.Group>)
    ensures |r| == |japanese| && forall i :: 0 <= i < |japanese| ==> r[i] == tokenize(japanese[i])
  {
    if japanese == [] then [] else [tokenize(japanese[0])] + TokenizeAll(japanese[1..], tokenize)
  }

  /**
   * `makeQuestion`: every answer is tokenized, the groups are augmented, and
   * every token of every augmented group is copied unmarked.
   */
  function MakeQuestion(english: string, japanese: seq<string>,
                        tokenize: string -> Morphemes.Group,
                        augment: seq<Morphemes.Group> -> seq<Morphemes.Group>): (q: Question)
    ensures q.english == english && q.japanese == japanese
    ensures var aug := augment(TokenizeAll(japanese, tokenize));
      |q.parsed| == |aug| &&
      forall i :: 0 <= i < |aug| ==>
        (|q.parsed[i]| == |aug[i]| &&
         forall j :: 0 <= j < |aug[i]| ==>
           (q.parsed[i][j].surface == aug[i][j].surface && q.parsed[i][j].reading == aug[i][j].reading &&
            q.parsed[i][j].pos == Some(aug[i][j].pos) && !q.parsed[i][j].marked))
  {
    Question(english, japanese, FromGroups(augment(TokenizeAll(japanese, tokenize))))
  }

  lemma {:induction false} NoneMarkedCount(g: seq<Token>)
    requires forall j :: 0 <= j < |g| ==> !g[j].marked
    ensures MarkedCount(g) == 0
  {
    if g != [] {
      NoneMarkedCount(g[..|g| - 1]);
    }
  }

  /** In a fresh question every answer group is a candidate for marking. */
  lemma FreshQuestionAllCandidates(english: string, japanese: seq<string>,
                                   tokenize: string -> Morphemes.Group,
                                   augment: seq<Morphemes.Group> -> seq<Morphemes.Group>)
    ensures var q := MakeQuestion(english, japanese, tokenize, augment);
      forall g :: g in q.parsed ==> g in GroupsWithMaxMarked(q.parsed)
  {
    var q := MakeQuestion(english, japanese, tokenize, augment);
    forall i | 0 <= i < |q.parsed|
      ensures MarkedCount(q.parsed[i]) == 0
    {
      NoneMarkedCount(q.parsed[i]);
    }
  }

  /** The features the kotogram library extracts from one token string. */
  datatype Features = Features(surface: string, reading: Option<string>, pos: Option<string>)

  /** The kotogram library and the kana converter, which are external. */
  datatype KotogramLib = KotogramLib(
    split: string -> seq<string>,
    extract: string -> Features,
    toHiragana: string -> string)

  /** The grammar analysis of an answer; only its kotogram is read here. */
  datatype Grammar = Grammar(kotogram: Option<string>)

  /** An answer token of the published build: the reading in hiragana, or the surface's if none. */
  function FromFeatures(f: Features, lib: KotogramLib): Token {
    var source := if f.reading.Some? && f.reading.value != "" then f.reading.value else f.surface;
    Token(f.surface, Some(lib.toHiragana(source)), f.pos, false)
  }

  /** `parseKotogramToTokens`. */
  function ParseKotogram(kotogram: string, lib: KotogramLib): (r: seq<Token>)
    ensures |r| == |lib.split(kotogram)|
    ensures forall j :: 0 <= j < |r| ==> r[j] == FromFeatures(lib.extract(lib.split(kotogram)[j]), lib)
  {
    var parts := lib.split(kotogram);
    seq(|parts|, j requires 0 <= j < |parts| => FromFeatures(lib.extract(parts[j]), lib))
  }

  /** `grammar?.kotogram` is truthy: an entry with a non-empty kotogram. */
  predicate HasKotogram(grammar: map<string, Grammar>, answer: string) {
    answer in grammar && grammar[answer].kotogram.Some? && grammar[answer].kotogram.value != ""
  }

  function MissingKotogram(answer: string): string {
    "Missing kotogram data for answer: \"" + answer + "\""
  }

  /** The question of the published build, which keeps the grammar map. */
  datatype PublishedQuestion = PublishedQuestion(
    english: string, japanese: seq<string>, parsed: seq<seq<Token>>, answerGrammar: map<string, Grammar>)

  function ParseAnswers(japanese: seq<string>, grammar: map<string, Grammar>, lib: KotogramLib): (r: Result<seq<seq<Token>>, string>)
    ensures r.Success? <==> forall i :: 0 <= i < |japanese| ==> HasKotogram(grammar, japanese[i])
    ensures r.Failure? ==>
      exists i :: (0 <= i < |japanese| && !HasKotogram(grammar, japanese[i]) &&
        r.error == MissingKotogram(japanese[i]) && forall j :: 0 <= j < i ==> HasKotogram(grammar, japanese[j]))
    ensures r.Success? ==>
      (|r.value| == |japanese| &&
       forall i :: 0 <= i < |japanese| ==> r.value[i] == ParseKotogram(grammar[japanese[i]].kotogram.value, lib))
  {
    if japanese == [] then Success([])
    else if !HasKotogram(grammar, japanese[0]) then Failure(MissingKotogram(japanese[0]))
    else
      assert forall i :: 1 <= i < |japanese| ==> japanese[i] == japanese[1..][i - 1];
      match ParseAnswers(japanese[1..], grammar, lib)
      case Failure(e) =>
        var k :| 0 <= k < |japanese[1..]| && !HasKotogram(grammar, japanese[1..][k]) &&
          e == MissingKotogram(japanese[1..][k]) && forall j :: 0 <= j < k ==> HasKotogram(grammar, japanese[1..][j]);
        assert forall j :: 0 <= j < k + 1 ==> HasKotogram(grammar, japanese[j]) by {
          assert forall j :: 1 <= j < k + 1 ==> japanese[j] == japanese[1..][j - 1];
        }
        Failure(e)
      case Success(rest) => Success([ParseKotogram(grammar[japanese[0]].kotogram.value, lib)] + rest)
  }

  /**
   * `makeQuestion` of the published build: an error naming the first answer
   * without kotogram data; otherwise one unmarked group per answer, in order.
   */
  function MakeQuestionPublished(english: string, japanese: seq<string>, grammar: map<string, Grammar>,
                                 lib: KotogramLib): (r: Result<PublishedQuestion, string>)
    ensures r.Success? <==> forall i :: 0 <= i < |japanese| ==> HasKotogram(grammar, japanese[i])
    ensures r.Failure? ==>
      exists i :: (0 <= i < |japanese| && !HasKotogram(grammar, japanese[i]) &&
        r.error == MissingKotogram(japanese[i]))
    ensures r.Success? ==>
      (r.value.english == english && r.value.japanese == japanese &&
       r.value.answerGrammar == grammar && |r.value.parsed| == |japanese| &&
       forall i :: 0 <= i < |japanese| ==>
         (r.value.parsed[i] == ParseKotogram(grammar[japanese[i]].kotogram.value, lib) &&
          MarkedCount(r.value.parsed[i]) == 0))
  {
    match ParseAnswers(japanese, grammar, lib)
    case Failure(e) => Failure(e)
    case Success(parsed) =>
      assert forall i :: 0 <= i < |parsed| ==> MarkedCount(parsed[i]) == 0 by {
        forall i | 0 <= i < |parsed| { NoneMarkedCount(parsed[i]); }
      }
      Success(PublishedQuestion(english, japanese, parsed, grammar))
  }
}
