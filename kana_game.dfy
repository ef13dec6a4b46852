/**
 * The copy of the answer logic that the game bundle carries. Its `findMatch`,
 * flat `markTokens`, `anyMarked` and `isCompleted` are those of
 * `KanaControlLogic`; it differs in how the nested `markTokens` picks its
 * groups, in `selectBestGroup`, and it adds `formatTokenGroup`.
 */
module KanaGameApp {
  import opened Wrappers
  import JsText
  import opened KanaControlLogic

  /**
   * The bundle's test in the nested `markTokens`: a group is processed when its
   * marked count equals the largest one.
   */
  function CandidatesByCount(groups: seq<seq<Token>>): (r: seq<bool>)
    ensures |r| == |groups|
  {
    var counts := seq(|groups|, j requires 0 <= j < |groups| => MarkedCount(groups[j]));
    var maxCount := MaxMarked(groups);
    seq(|groups|, j requires 0 <= j < |groups| => counts[j] == maxCount)
  }

  /** Both copies of the nested `markTokens` process exactly the same groups. */
  lemma CandidateTestsAgree(groups: seq<seq<Token>>)
    ensures CandidatesByCount(groups) == CandidatesByInclusion(groups)
  {
  }

  function UnmarkedCount(g: seq<Token>): nat {
    |g| - MarkedCount(g)
  }

  /** `a` ranks above `b`: more marked tokens, or as many and fewer unmarked ones. */
  predicate Better(a: seq<Token>, b: seq<Token>): (r: bool)
    ensures r ==> MarkedCount(a) >= MarkedCount(b)
    ensures MarkedCount(a) == MarkedCount(b) ==> (r <==> |a| < |b|)
  {
    MarkedCount(a) > MarkedCount(b) ||
    (MarkedCount(a) == MarkedCount(b) && UnmarkedCount(a) < UnmarkedCount(b))
  }

  /** `Better` is a strict order on (marked, unmarked) counts. */
  lemma BetterOrder(a: seq<Token>, b: seq<Token>, c: seq<Token>)
    ensures Better(a, b) && !Better(c, b) ==> !Better(c, a) && Better(a, c)
    ensures !Better(a, a)
  {
  }

  /** The best-ranked group of `groups`, the earliest one among equals. */
  function FirstBest(groups: seq<seq<Token>>): (r: seq<Token>)
    requires groups != []
    ensures r in groups
    ensures forall j :: 0 <= j < |groups| ==> !Better(groups[j], r)
  {
    if |groups| == 1 then groups[0]
    else
      var b0 := FirstBest(groups[..|groups| - 1]);
      var x := groups[|groups| - 1];
      if Better(x, b0) then x else b0
  }

  /** `groups[k]` ranks below no group, and strictly above every group before it. */
  predicate IsFirstBest(groups: seq<seq<Token>>, k: nat)
    requires k < |groups|
  {
    (forall j :: 0 <= j < |groups| ==> !Better(groups[j], groups[k])) &&
    (forall j :: 0 <= j < k ==> Better(groups[k], groups[j]))
  }

  /** `FirstBest` is the group at the first index no other group ranks above. */
  lemma {:induction false} FirstBestIsFirstBest(groups: seq<seq<Token>>) returns (k: nat)
    requires groups != []
    ensures k < |groups| && groups[k] == FirstBest(groups) && IsFirstBest(groups, k)
  {
    if |groups| == 1 {
      k := 0;
      BetterOrder(groups[0], groups[0], groups[0]);
    } else {
      var n := |groups| - 1;
      var s := groups[..n];
      var x := groups[n];
      var k0 := FirstBestIsFirstBest(s);
      var b0 := s[k0];
      assert forall j :: 0 <= j < n ==> s[j] == groups[j];
      if Better(x, b0) {
        k := n;
        forall j | 0 <= j < n
          ensures Better(x, groups[j]) && !Better(groups[j], x)
        {
          BetterOrder(x, b0, s[j]);
        }
        BetterOrder(x, x, x);
      } else {
        k := k0;
      }
    }
  }

  /** `selectBestGroup` of the bundle: null for no groups, otherwise the first best-ranked group. */
  method SelectBestGroup(groups: seq<seq<Token>>) returns (r: Option<seq<Token>>)
    ensures groups == [] ==> r.None?
    ensures groups != [] ==> r == Some(FirstBest(groups))
  {
    if |groups| == 0 {
      return None;
    }
    var best := groups[0];
    var bestMarked := MarkedCount(best);
    var bestUnmarked := |best| - bestMarked;
    assert groups[..1] == [groups[0]];
    for i := 1 to |groups|
      invariant best == FirstBest(groups[..i])
      invariant bestMarked == MarkedCount(best) && bestUnmarked == UnmarkedCount(best)
    {
      assert groups[..i + 1] == groups[..i] + [groups[i]];
      FirstBestSnoc(groups[..i], groups[i]);
      var grp := groups[i];
      var markedCount := MarkedCount(grp);
      var unmarkedCount := |grp| - markedCount;
      if markedCount > bestMarked || (markedCount == bestMarked && unmarkedCount < bestUnmarked) {
        best := grp;
        bestMarked := markedCount;
        bestUnmarked := unmarkedCount;
      }
    }
    assert groups[..|groups|] == groups;
    return Some(best);
  }

  lemma FirstBestHasMaxMarked(groups: seq<seq<Token>>)
    requires groups != []
    ensures MarkedCount(FirstBest(groups)) == MaxMarked(groups)
  {
    var i :| 0 <= i < |groups| && MarkedCount(groups[i]) == MaxMarked(groups);
    var k := FirstBestIsFirstBest(groups);
    assert !Better(groups[i], groups[k]);
  }

  /** No group has a marked count above the largest one. */
  lemma NoneAboveMax(groups: seq<seq<Token>>, c: nat)
    requires c > MaxMarked(groups)
    ensures WithMarkedCount(groups, c) == []
  {
    if WithMarkedCount(groups, c) != [] {
      assert WithMarkedCount(groups, c)[0] in WithMarkedCount(groups, c);
    }
  }

  lemma MaxMarkedSnoc(s: seq<seq<Token>>, x: seq<Token>)
    ensures MaxMarked(s + [x]) == if MarkedCount(x) >= MaxMarked(s) then MarkedCount(x) else MaxMarked(s)
  {
    assert (s + [x])[..|s|] == s;
  }

  lemma WithMarkedCountSnoc(s: seq<seq<Token>>, x: seq<Token>, c: nat)
    ensures WithMarkedCount(s + [x], c) == WithMarkedCount(s, c) + (if MarkedCount(x) == c then [x] else [])
  {
    assert (s + [x])[..|s|] == s;
  }

  lemma FirstBestSnoc(s: seq<seq<Token>>, x: seq<Token>)
    requires s != []
    ensures FirstBest(s + [x]) == if Better(x, FirstBest(s)) then x else FirstBest(s)
  {
    assert (s + [x])[..|s|] == s;
  }

  /**
   * The bundle's `selectBestGroup` and the control's pick the same group: the
   * first shortest of the groups with the most marked tokens.
   */
  lemma {:induction false} SelectionsAgree(groups: seq<seq<Token>>)
    requires groups != []
    ensures FirstBest(groups) == FirstShortest(GroupsWithMaxMarked(groups))
  {
    var n := |groups| - 1;
    if n > 0 {
      var s := groups[..n];
      var x := groups[n];
      assert groups == s + [x];
      var m := MaxMarked(groups);
      MaxMarkedSnoc(s, x);
      WithMarkedCountSnoc(s, x, m);
      FirstBestSnoc(s, x);
      FirstBestHasMaxMarked(s);
      if MarkedCount(x) > MaxMarked(s) {
        NoneAboveMax(s, m);
        assert GroupsWithMaxMarked(groups) == [x];
      } else {
        SelectionsAgree(s);
        assert GroupsWithMaxMarked(s) == WithMarkedCount(s, m);
        if MarkedCount(x) == m {
          FirstShortestSnoc(WithMarkedCount(s, m), x);
        }
      }
    }
  }

  /**
   * One token of `formatTokenGroup`: shown as typed, masked by '_' of the
   * same UTF-16 width, or dropped; only a token not yet typed is hidden.
   */
  function FormatToken(t: Token, includePunctuation: bool): (r: string)
    ensures r == t.surface || forall i :: 0 <= i < |r| ==> r[i] == '_'
    ensures r != t.surface ==> !t.marked && !includePunctuation
    ensures !t.marked && !includePunctuation && t.pos != Some("記号") ==> JsText.JsLength(r) == JsText.JsLength(t.surface)
    ensures JsText.JsLength(r) <= JsText.JsLength(t.surface)
    ensures !t.marked && !includePunctuation && t.pos != Some("記号") ==> forall i :: 0 <= i < |r| ==> r[i] == '_'
    ensures !t.marked && !includePunctuation && t.pos == Some("記号") ==> r == ""
  {
    if t.marked || includePunctuation then t.surface
    else if t.pos != Some("記号") then
      JsLengthRepeat('_', JsText.JsLength(t.surface));
      JsText.Repeat('_', JsText.JsLength(t.surface))
    else ""
  }

  /**
   * `formatTokenGroup`: each marked token (every token with
   * `includePunctuation`) shows its surface, any other token one '_' per
   * UTF-16 unit of its surface, except unmarked punctuation, which is dropped.
   * The skeleton is never wider than the answer.
   */
  function FormatTokenGroup(group: seq<Token>, includePunctuation: bool): (r: string)
    ensures JsText.JsLength(r) <= JsText.JsLength(SurfaceText(group))
  {
    if group == [] then ""
    else
      var a := FormatToken(group[0], includePunctuation);
      var b := FormatTokenGroup(group[1..], includePunctuation);
      JsText.JsLengthAppend(a, b);
      JsText.JsLengthAppend(group[0].surface, SurfaceText(group[1..]));
      a + b
  }

  /** The skeleton of a concatenation is the concatenation of the skeletons: each token contributes its own piece. */
  lemma {:induction false} FormatTokenGroupAppend(a: seq<Token>, b: seq<Token>, includePunctuation: bool)
    ensures FormatTokenGroup(a + b, includePunctuation) == FormatTokenGroup(a, includePunctuation) + FormatTokenGroup(b, includePunctuation)
  {
    if a == [] {
      assert a + b == b;
    } else {
      var t := a[0];
      var a1 := a[1..];
      var rest := a1 + b;
      assert a + b == [t] + rest;
      assert a == [t] + a1;
      FormatTokenGroupAppend(a1, b, includePunctuation);
      FormatAppendStep(t, a1, b, FormatTokenGroup(a1 + b, includePunctuation), includePunctuation);
    }
  }

  lemma FormatAppendStep(t: Token, a1: seq<Token>, b: seq<Token>, r: string, includePunctuation: bool)
    requires r == FormatTokenGroup(a1 + b, includePunctuation)
    requires r == FormatTokenGroup(a1, includePunctuation) + FormatTokenGroup(b, includePunctuation)
    ensures FormatTokenGroup([t] + (a1 + b), includePunctuation) ==
      FormatTokenGroup([t] + a1, includePunctuation) + FormatTokenGroup(b, includePunctuation)
  {
    FormatTokenGroupCons(t, a1 + b, includePunctuation);
    FormatTokenGroupCons(t, a1, includePunctuation);
    ConcatAssoc(FormatToken(t, includePunctuation), FormatTokenGroup(a1, includePunctuation), FormatTokenGroup(b, includePunctuation));
  }

  lemma ConcatAssoc(x: string, y: string, z: string)
    ensures x + (y + z) == (x + y) + z
  {
  }

  lemma FormatTokenGroupCons(t: Token, rest: seq<Token>, includePunctuation: bool)
    ensures FormatTokenGroup([t] + rest, includePunctuation) == FormatToken(t, includePunctuation) + FormatTokenGroup(rest, includePunctuation)
  {
    assert ([t] + rest)[0] == t && ([t] + rest)[1..] == rest;
  }

  /** A group of one token is formatted as that token. */
  lemma FormatTokenGroupSingle(t: Token, includePunctuation: bool)
    ensures FormatTokenGroup([t], includePunctuation) == FormatToken(t, includePunctuation)
  {
    var none: seq<Token> := [];
    assert [t] == [t] + none;
    FormatTokenGroupCons(t, none, includePunctuation);
    ConcatEmpty(FormatToken(t, includePunctuation));
  }

  lemma ConcatEmpty(x: string)
    ensures x + "" == x
  {
  }

  function SurfaceText(group: seq<Token>): string {
    if group == [] then "" else group[0].surface + SurfaceText(group[1..])
  }

  /** With punctuation included the skeleton is the answer text itself. */
  lemma {:induction false} FormatWithPunctuation(group: seq<Token>)
    ensures FormatTokenGroup(group, true) == SurfaceText(group)
  {
    if group != [] {
      FormatWithPunctuation(group[1..]);
    }
  }

  /** A fully typed answer shows the same with or without punctuation. */
  lemma {:induction false} FormatAllMarked(group: seq<Token>)
    requires forall i :: 0 <= i < |group| ==> group[i].marked
    ensures FormatTokenGroup(group, false) == SurfaceText(group)
  {
    if group != [] {
      FormatAllMarked(group[1..]);
    }
  }

  /** The tokens that are not unmarked punctuation. */
  function Shown(group: seq<Token>): seq<Token> {
    if group == [] then []
    else if !group[0].marked && group[0].pos == Some("記号") then Shown(group[1..])
    else [group[0]] + Shown(group[1..])
  }

  lemma JsLengthRepeat(c: char, n: nat)
    requires c as int <= 0xFFFF
    ensures JsText.JsLength(JsText.Repeat(c, n)) == n
  {
    if n > 0 {
      JsLengthRepeat(c, n - 1);
    }
  }

  /**
   * Masking keeps the width: the skeleton has as many UTF-16 units as the
   * surfaces of the tokens it does not drop.
   */
  lemma {:induction false} FormatKeepsWidth(group: seq<Token>)
    ensures JsText.JsLength(FormatTokenGroup(group, false)) == JsText.JsLength(SurfaceText(Shown(group)))
  {
    if group != [] {
      var t := group[0];
      FormatKeepsWidth(group[1..]);
      JsText.JsLengthAppend(FormatToken(t, false), FormatTokenGroup(group[1..], false));
      if !t.marked && t.pos != Some("記号") {
        JsLengthRepeat('_', JsText.JsLength(t.surface));
      }
      if !(!t.marked && t.pos == Some("記号")) {
        assert Shown(group) == [t] + Shown(group[1..]);
        assert SurfaceText([t] + Shown(group[1..])) == t.surface + SurfaceText(Shown(group[1..]));
        JsText.JsLengthAppend(t.surface, SurfaceText(Shown(group[1..])));
      }
    }
  }

  /** A completed answer shows only what was typed: unmarked punctuation is dropped. */
  lemma {:induction false} FormatCompleted(group: seq<Token>)
    requires IsCompleted(group)
    ensures FormatTokenGroup(group, false) == SurfaceText(Shown(group))
  {
    if group != [] {
      assert IsCompleted(group[1..]);
      FormatCompleted(group[1..]);
    }
  }
}
