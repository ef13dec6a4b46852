/**
 * The game's own augmentation closure (src/augment.ts): eight augmenters that
 * work on the joined text of the non-blank tokens, and a worklist keyed by the
 * '|'-joined surface(reading) list.
 */
module AugmentGame {
  import opened Wrappers
  import JsText
  import opened Morphemes
  import AugmentWorklist
  import C = AugmentKanaControl

  const Auxiliary := "助動詞"
  const BaseForm := "基本形"

  /**
   * The tokenizer as the game's augmenters use it: `makeTokenAugmenter` drops
   * the blank tokens of every group it gets back.
   */
  function FilteringTokenizer(tokenize: C.Tokenizer): (r: C.Tokenizer)
    ensures forall t :: NoBlank(r(t)) && |r(t)| <= |tokenize(t)|
  {
    FilterAll(tokenize);
    t => DropBlank(tokenize(t))
  }

  lemma FilterAll(tokenize: C.Tokenizer)
    ensures forall t :: NoBlank(DropBlank(tokenize(t)))
  {
    forall t {
      DropBlankIdempotent(tokenize(t));
    }
  }

  /** Re-tokenized variants come back without blank tokens; built groups are kept as built. */
  lemma RealiseFiltered(vs: seq<C.Variant>, tokenize: C.Tokenizer)
    ensures var r := C.RealiseAll(vs, FilteringTokenizer(tokenize));
      |r| == |vs| &&
      (forall i :: 0 <= i < |vs| && vs[i].Retokenize? ==> NoBlank(r[i])) &&
      (forall i :: 0 <= i < |vs| && vs[i].Direct? ==> r[i] == vs[i].group)
  {
    forall i | 0 <= i < |vs| && vs[i].Retokenize?
      ensures NoBlank(C.RealiseAll(vs, FilteringTokenizer(tokenize))[i])
    {
      DropBlankIdempotent(tokenize(vs[i].text));
    }
  }

  /** `raw` of `makeTokenAugmenter`: the non-blank surfaces joined with spaces. */
  function FilteredRaw(g: Group): (r: string)
    ensures NoBlank(g) ==> r == Raw(g)
  {
    if NoBlank(g) then DropBlankUnchanged(g); Raw(DropBlank(g)) else Raw(DropBlank(g))
  }

  // ---------------------------------------------------------------------------
  // Pronoun swaps: a global replace in the joined text
  // ---------------------------------------------------------------------------

  /** A pronoun augmenter: fires when a token is exactly `search`, and replaces every `search` in the text. */
  function TextReplace(search: string, rep: string, g: Group): (r: seq<C.Variant>)
    requires search != ""
    ensures r != [] <==> search in Surfaces(g)
    ensures r != [] ==> |r| == 1 && r[0].Retokenize?
  {
    if search in Surfaces(g) then [C.Retokenize(JsText.ReplaceAll(FilteredRaw(g), search, rep))] else []
  }

  /** A surface that does not hold the pattern, or is exactly the pattern. */
  predicate WholeOrApart(s: string, search: string) {
    s == search || !JsText.Contains(s, search)
  }

  /**
   * When `search` never occurs inside a longer surface, the global text replace
   * is the whole-token replace of the kana control's copy on the non-blank tokens.
   */
  lemma TextReplaceIsWholeTokenReplace(search: string, rep: string, g: Group)
    requires search != "" && ' ' !in search
    requires forall k :: 0 <= k < |g| ==> WholeOrApart(g[k].surface, search)
    ensures TextReplace(search, rep, g) != [] ==> TextReplace(search, rep, g) == C.ReplaceWhole(search, rep, DropBlank(g))
  {
    var f := DropBlank(g);
    var parts := Surfaces(f);
    var qs := C.SurfacesReplacing(f, search, rep);
    DropBlankKeeps(g);
    forall k | 0 <= k < |parts|
      ensures qs[k] == JsText.ReplaceAll(parts[k], search, rep)
    {
      assert f[k] in g;
      if parts[k] == search {
        JsText.ReplaceAllWhole(search, rep);
      } else {
        JsText.ReplaceAllAbsent(parts[k], search, rep);
      }
    }
    JsText.ReplaceAllJoin(parts, qs, ' ', search, rep);
  }

  /** Without a matching character left in the text, a one-character pronoun is gone after the swap. */
  lemma {:induction false} ReplaceAllRemoves(s: string, c: char, rep: string)
    requires c !in rep
    ensures c !in JsText.ReplaceAll(s, [c], rep)
    decreases |s|
  {
    if |s| >= 1 {
      if s[..1] == [c] {
        JsText.ReplaceAllMatch(s, [c], rep);
      } else {
        JsText.ReplaceAllSkip(s, [c], rep);
        assert s[0] != c;
      }
      ReplaceAllRemoves(s[1..], c, rep);
      assert s[1..] == s[|[c]|..];
    }
  }

  /** The 私→僕 augmenter leaves no 私 in its text. */
  lemma WatashiGone(g: Group)
    ensures TextReplace("私", "僕", g) != [] ==> '私' !in TextReplace("私", "僕", g)[0].text
  {
    ReplaceAllRemoves(FilteredRaw(g), '私', "僕");
  }

  // ---------------------------------------------------------------------------
  // です → だ, on the text
  // ---------------------------------------------------------------------------

  /** The guard: the last two tokens are the plain auxiliary です and the 記号 。. */
  predicate DesuDaGuard(g: Group): (r: bool)
    ensures r ==> |g| >= 2 && !IsBlankToken(g[|g| - 2]) && !IsBlankToken(g[|g| - 1])
  {
    var n := |g|;
    n >= 2 &&
    g[n - 2].surface == "です" && g[n - 2].pos == Auxiliary && g[n - 2].conjugatedForm == BaseForm &&
    g[n - 1].surface == "。" && g[n - 1].pos == C.Symbol
  }

  /**
   * The text with its last four characters replaced by だ。; a text shorter
   * than four characters is cut to nothing, leaving だ。 alone.
   */
  function DesuDaText(raw: string): (r: string)
    ensures |r| >= 2 && r[|r| - 2..] == "だ。"
    ensures r[..|r| - 2] <= raw
    ensures |raw| >= 4 ==> |r| == |raw| - 2
    ensures |raw| < 4 ==> r == "だ。"
  {
    (if |raw| >= 4 then raw[..|raw| - 4] else "") + "だ。"
  }

  function DesuDa(g: Group): (r: seq<C.Variant>)
    ensures r != [] <==> DesuDaGuard(g)
    ensures r != [] ==> |r| == 1 && r[0].Retokenize?
  {
    if DesuDaGuard(g) then [C.Retokenize(DesuDaText(FilteredRaw(g)))] else []
  }

  /** The filter keeps the final です and 。 and drops only blank tokens before them. */
  lemma DesuDaFiltered(g: Group)
    requires DesuDaGuard(g)
    ensures var n := |g|;
      Surfaces(DropBlank(g)) == Surfaces(DropBlank(g[..n - 2])) + ["です", "。"]
  {
    DesuNotBlank(g);
    DropBlankLastTwo(g);
  }

  /** Neither of the two tokens the guard looks at is blank, and their surfaces are です and 。. */
  lemma DesuNotBlank(g: Group)
    requires DesuDaGuard(g)
    ensures var n := |g|;
      !IsBlankToken(g[n - 2]) && !IsBlankToken(g[n - 1]) && [g[n - 2].surface, g[n - 1].surface] == ["です", "。"]
  {
    var n := |g|;
    assert g[n - 2].surface[0] == 'で' && g[n - 1].surface[0] == '。';
    assert !JsText.IsJsWhitespace('で') && !JsText.IsJsWhitespace('。');
    NotBlank(g[n - 2]);
    NotBlank(g[n - 1]);
  }

  /** Cutting four characters off a text ending in です 。 and appending だ。 replaces the last two words. */
  lemma DesuCut(xs: seq<string>)
    ensures var raw := JsText.Join(xs + ["です", "。"], " ");
      |raw| >= 4 && raw[|raw| - 4..] == "です 。" && DesuDaText(raw) == JsText.Join(xs + ["だ。"], " ")
  {
    var raw := JsText.Join(xs + ["です", "。"], " ");
    if xs == [] {
      assert xs + ["です", "。"] == ["です", "。"];
      assert raw == "です" + " " + "。";
    } else {
      JsText.JoinSnoc(xs, "です", " ");
      JsText.JoinSnoc(xs + ["です"], "。", " ");
      assert xs + ["です", "。"] == xs + ["です"] + ["。"];
      var j := JsText.Join(xs, " ");
      assert raw == j + " " + "です" + " " + "。";
      assert raw[..|raw| - 4] == j + " ";
      JsText.JoinSnoc(xs, "だ。", " ");
    }
  }

  /** The text keeps every earlier word and puts だ。 in place of the final です 。. */
  lemma DesuDaWords(g: Group)
    requires DesuDaGuard(g)
    ensures var f := DropBlank(g);
      |f| >= 2 && DesuDa(g) == C.Spaced(Surfaces(f)[..|f| - 2] + ["だ。"])
  {
    var n := |g|;
    DesuDaFiltered(g);
    var xs := Surfaces(DropBlank(g[..n - 2]));
    DesuCut(xs);
    var f := DropBlank(g);
    assert Surfaces(f)[..|f| - 2] == xs;
  }

  /** Cutting a final です 。 removes four UTF-16 code units. */
  lemma DesuSuffixUnits(raw: string)
    requires |raw| >= 4 && raw[|raw| - 4..] == "です 。"
    ensures JsText.JsLength(raw[|raw| - 4..]) == 4 && JsText.JsLength(raw[..|raw| - 4]) == JsText.JsLength(raw) - 4
  {
    JsText.JsLengthBmp("です 。");
    JsText.JsLengthSplit(raw, |raw| - 4);
  }

  /** Under the guard the four characters cut are four UTF-16 code units, as `slice(0, -4)` counts. */
  lemma DesuDaCutsFourUnits(g: Group)
    requires DesuDaGuard(g)
    ensures var raw := FilteredRaw(g);
      |raw| >= 4 && JsText.JsLength(raw[|raw| - 4..]) == 4 &&
      JsText.JsLength(raw[..|raw| - 4]) == JsText.JsLength(raw) - 4
  {
    DesuDaFiltered(g);
    DesuCut(Surfaces(DropBlank(g[..|g| - 2])));
    DesuSuffixUnits(FilteredRaw(g));
  }

  // ---------------------------------------------------------------------------
  // Dropping a leading 私は, on the text
  // ---------------------------------------------------------------------------

  /** The guard: 私 は and then a token that is not a 助詞; neither leading token is blank. */
  predicate DropWatashiHaGuard(g: Group): (r: bool)
    ensures r ==> |g| > 2 && !IsBlankToken(g[0]) && !IsBlankToken(g[1])
  {
    |g| > 2 && g[0].surface == "私" && g[1].surface == "は" && g[2].pos != C.Particle
  }

  /**
   * The trimmed text without its first three characters, trimmed again: no
   * white space at either end, and at least three characters shorter than the
   * trimmed text (empty when that is shorter than three).
   */
  function DropWatashiHaText(raw: string): (r: string)
    ensures r != [] ==> !JsText.IsJsWhitespace(r[0]) && !JsText.IsJsWhitespace(r[|r| - 1])
    ensures |JsText.Trim(raw)| >= 3 ==> |r| <= |JsText.Trim(raw)| - 3
    ensures |JsText.Trim(raw)| < 3 ==> r == ""
  {
    var t := JsText.Trim(raw);
    JsText.Trim(if |t| >= 3 then t[3..] else "")
  }

  function DropWatashiHa(g: Group): (r: seq<C.Variant>)
    ensures r != [] <==> DropWatashiHaGuard(g)
    ensures r != [] ==> |r| == 1 && r[0].Retokenize?
  {
    if DropWatashiHaGuard(g) then [C.Retokenize(DropWatashiHaText(FilteredRaw(g)))] else []
  }

  /** A surface without white space at either end (every tokenizer word; blank tokens aside). */
  predicate TightSurface(s: string) {
    s != [] && !JsText.IsJsWhitespace(s[0]) && !JsText.IsJsWhitespace(s[|s| - 1])
  }

  lemma WatashiHaCutAlone()
    ensures DropWatashiHaText("私 は") == ""
  {
    assert !JsText.IsJsWhitespace('私') && !JsText.IsJsWhitespace('は');
    JsText.TrimUnchanged("私 は");
  }

  lemma WatashiHaCutBefore(j: string)
    requires TightSurface(j)
    ensures DropWatashiHaText("私 は " + j) == j
  {
    var raw := "私 は " + j;
    assert raw[0] == '私' && raw[|raw| - 1] == j[|j| - 1];
    assert !JsText.IsJsWhitespace('私');
    JsText.TrimUnchanged(raw);
    assert raw[3..] == " " + j;
    JsText.TrimLeadingSpace(j);
  }

  lemma JoinWatashiHa(rest: seq<string>)
    ensures JsText.Join(["私", "は"] + rest, " ") ==
      if rest == [] then "私 は" else "私 は " + JsText.Join(rest, " ")
  {
    assert (["私", "は"] + rest)[1..] == ["は"] + rest;
    assert (["は"] + rest)[1..] == rest;
  }

  /** Cutting 私 は off a text of tight words leaves the words after them, with nothing to trim. */
  lemma WatashiHaCut(rest: seq<string>)
    requires forall k :: 0 <= k < |rest| ==> TightSurface(rest[k])
    ensures DropWatashiHaText(JsText.Join(["私", "は"] + rest, " ")) == JsText.Join(rest, " ")
  {
    JoinWatashiHa(rest);
    if rest == [] {
      WatashiHaCutAlone();
    } else {
      JoinTight(rest);
      WatashiHaCutBefore(JsText.Join(rest, " "));
    }
  }

  /** A join of tight words is tight. */
  lemma JoinTight(rest: seq<string>)
    requires rest != [] && forall k :: 0 <= k < |rest| ==> TightSurface(rest[k])
    ensures TightSurface(JsText.Join(rest, " "))
  {
    JsText.JoinEdges(rest, " ");
    var last := rest[|rest| - 1];
    assert TightSurface(rest[0]) && TightSurface(last);
  }

  /** The surfaces the filter keeps are tight when every non-blank token is. */
  lemma FilteredTight(g: Group)
    requires forall k :: 0 <= k < |g| ==> IsBlankToken(g[k]) || TightSurface(g[k].surface)
    ensures forall k :: 0 <= k < |DropBlank(g)| ==> TightSurface(Surfaces(DropBlank(g))[k])
  {
    DropBlankKeeps(g);
    forall k | 0 <= k < |DropBlank(g)|
      ensures TightSurface(Surfaces(DropBlank(g))[k])
    {
      var m := DropBlank(g)[k];
      var i :| 0 <= i < |g| && g[i] == m;
    }
  }

  /** When the words carry no white space at their edges, the text is the words after 私 and は. */
  lemma DropWatashiHaWords(g: Group)
    requires DropWatashiHaGuard(g)
    requires forall k :: 0 <= k < |g| ==> IsBlankToken(g[k]) || TightSurface(g[k].surface)
    ensures DropWatashiHa(g) == C.Spaced(Surfaces(DropBlank(g[2..])))
  {
    assert !JsText.IsJsWhitespace('私') && !JsText.IsJsWhitespace('は');
    NotBlank(g[0]);
    NotBlank(g[1]);
    DropBlankFirstTwo(g);
    assert forall k :: 0 <= k < |g[2..]| ==> g[2..][k] == g[k + 2];
    FilteredTight(g[2..]);
    WatashiHaCut(Surfaces(DropBlank(g[2..])));
  }

  // ---------------------------------------------------------------------------
  // Reading modifiers
  // ---------------------------------------------------------------------------

  predicate HasReading(m: Morpheme, surface: string, reading: string) {
    m.surface == surface && m.reading == Some(reading)
  }

  /** The first token with that surface and reading, or -1. */
  function FirstWithReading(g: Group, surface: string, reading: string): (r: int)
    ensures -1 <= r < |g|
    ensures r >= 0 ==> HasReading(g[r], surface, reading)
    ensures forall k :: 0 <= k < |g| && (r == -1 || k < r) ==> !HasReading(g[k], surface, reading)
  {
    if g == [] then -1
    else if HasReading(g[0], surface, reading) then 0
    else
      var r := FirstWithReading(g[1..], surface, reading);
      assert forall k :: 1 <= k < |g| ==> g[k] == g[1..][k - 1];
      if r == -1 then -1 else r + 1
  }

  /** `makeReadingModifierAugmenter`: the first token with `surface` read `original` is read `changed`. */
  function ReadingModifier(surface: string, original: string, changed: string, g: Group): (r: seq<C.Variant>)
    ensures r == [] <==> forall k :: 0 <= k < |g| ==> !HasReading(g[k], surface, original)
    ensures r != [] ==>
      var i := FirstWithReading(g, surface, original);
      |r| == 1 && r[0].Direct? && |r[0].group| == |g| &&
      r[0].group[i] == g[i].(reading := Some(changed)) &&
      forall k :: 0 <= k < |g| && k != i ==> r[0].group[k] == g[k]
  {
    var i := FirstWithReading(g, surface, original);
    if i == -1 then [] else [C.Direct(g[i := g[i].(reading := Some(changed))])]
  }

  /**
   * The two modifiers undo each other: changing the first `a` reading to `b`
   * and then the first `b` reading back gives the group back, when no earlier
   * token had the reading `b`.
   */
  lemma ReadingRoundTrip(surface: string, a: string, b: string, g: Group)
    requires ReadingModifier(surface, a, b, g) != []
    requires forall k :: 0 <= k < FirstWithReading(g, surface, a) ==> !HasReading(g[k], surface, b)
    ensures ReadingModifier(surface, b, a, ReadingModifier(surface, a, b, g)[0].group) == [C.Direct(g)]
  {
    var i := FirstWithReading(g, surface, a);
    var h := ReadingModifier(surface, a, b, g)[0].group;
    assert HasReading(h[i], surface, b);
    assert FirstWithReading(h, surface, b) == i;
    assert h[i := h[i].(reading := Some(a))] == g;
  }

  // ---------------------------------------------------------------------------
  // The closure
  // ---------------------------------------------------------------------------

  /** The reading modifiers hand back copies of `g` that keep its words. */
  lemma ReadingModifierWords(surface: string, original: string, changed: string, g: Group)
    ensures C.TextOrReading(g, ReadingModifier(surface, original, changed, g))
  {
  }

  /** Every answer but a reading modifier's is one text to tokenize. */
  lemma TextAnswer(r: seq<C.Variant>)
    requires r != [] ==> |r| == 1 && r[0].Retokenize?
    ensures |r| <= 1 && C.AllText(r)
  {
  }

  /**
   * `tokenAugmenters`, in order: at most one answer each, and only the reading
   * modifiers hand back tokens, with the words of `g` unchanged.
   */
  function Expand(g: Group): (r: seq<C.Variant>)
    ensures |r| <= 8 && C.TextOrReading(g, r)
  {
    var a, b, c := TextReplace("私", "僕", g), TextReplace("僕", "俺", g), TextReplace("あなた", "君", g);
    var d, e, f := TextReplace("私", "あたし", g), DesuDa(g), DropWatashiHa(g);
    var x, y := ReadingModifier("日本", "ニッポン", "ニホン", g), ReadingModifier("日本", "ニホン", "ニッポン", g);
    TextAnswer(a);
    TextAnswer(b);
    TextAnswer(c);
    TextAnswer(d);
    TextAnswer(e);
    TextAnswer(f);
    C.AllTextAppend(a, b);
    C.AllTextAppend(a + b, c);
    C.AllTextAppend(a + b + c, d);
    C.AllTextAppend(a + b + c + d, e);
    C.AllTextAppend(a + b + c + d + e, f);
    C.AllTextIsTextOrReading(g, a + b + c + d + e + f);
    ReadingModifierWords("日本", "ニッポン", "ニホン", g);
    ReadingModifierWords("日本", "ニホン", "ニッポン", g);
    C.TextOrReadingAppend(g, a + b + c + d + e + f, x);
    C.TextOrReadingAppend(g, a + b + c + d + e + f + x, y);
    a + b + c + d + e + f + x + y
  }

  /**
   * One group per variant: a text comes back tokenized without blank tokens,
   * and a copy handed back as tokens keeps the words of `g`.
   */
  function Augmentations(g: Group, tokenize: C.Tokenizer): (r: seq<Group>)
    ensures |r| == |Expand(g)| <= 8
    ensures forall k :: 0 <= k < |r| && Expand(g)[k].Retokenize? ==> NoBlank(r[k])
    ensures forall k :: 0 <= k < |r| && Expand(g)[k].Direct? ==> C.SameWords(g, r[k])
  {
    var vs := Expand(g);
    RealiseFiltered(vs, tokenize);
    C.RealisedWords(g, vs, FilteringTokenizer(tokenize));
    C.RealiseAll(vs, FilteringTokenizer(tokenize))
  }

  /** The expansion step of the worklist: the augmentations of a group. */
  function Expander(tokenize: C.Tokenizer): Group -> seq<Group> {
    g => Augmentations(g, tokenize)
  }

  /** The final `map` of the source: every group loses its blank tokens. */
  function DropAll(gs: seq<Group>): (r: seq<Group>)
    ensures |r| == |gs| && forall i :: 0 <= i < |gs| ==> r[i] == DropBlank(gs[i])
  {
    if gs == [] then [] else [DropBlank(gs[0])] + DropAll(gs[1..])
  }

  /** Groups that are already filtered pass the final `map` unchanged. */
  lemma DropAllUnchanged(gs: seq<Group>)
    requires forall i :: 0 <= i < |gs| ==> NoBlank(gs[i])
    ensures DropAll(gs) == gs
  {
    forall i | 0 <= i < |gs|
      ensures DropAll(gs)[i] == gs[i]
    {
      DropBlankUnchanged(gs[i]);
    }
  }

  /** The map stores a group as it arrives. */
  function Identity(g: Group): Group {
    g
  }

  /**
   * `augmentTokenGroups` as src/augment.ts writes it: groups are keyed as
   * they arrive, blank tokens and all, and the blank tokens are removed only
   * from the stored groups at the end, then sorted by the key of what is left.
   */
  method AugmentTokenGroupsAsWritten(initial: seq<Group>, tokenize: C.Tokenizer, le: (string, string) -> bool,
                                     fuel: nat)
    returns (result: seq<Group>, complete: bool, ghost entries: seq<Group>)
    ensures AugmentWorklist.DistinctKeys(entries, PipeKey)
    ensures forall k :: 0 <= k < |initial| && AugmentWorklist.FirstWithKey(initial, k, Identity, PipeKey) ==>
      initial[k] in entries
    ensures forall i :: 0 <= i < |entries| ==> AugmentWorklist.Derived(entries, initial, Expander(tokenize), Identity, i)
    ensures complete ==> AugmentWorklist.ClosedBelow(entries, |entries|, Expander(tokenize), Identity, PipeKey)
    ensures result == AugmentWorklist.SortBy(DropAll(entries), PipeKey, le)
    ensures AugmentWorklist.TotalPreorder(le) ==> AugmentWorklist.SortedBy(result, PipeKey, le)
  {
    var expand := Expander(tokenize);
    var stored;
    stored, complete := AugmentWorklist.Closure(initial, expand, Identity, PipeKey, fuel);
    entries := stored;
    result := AugmentWorklist.SortBy(DropAll(stored), PipeKey, le);
    if AugmentWorklist.TotalPreorder(le) {
      AugmentWorklist.SortBySorted(DropAll(stored), PipeKey, le);
    }
  }

  /** A multiset holding `x` twice has it at two positions. */
  lemma TwoPositions<T>(xs: seq<T>, x: T)
    requires multiset(xs)[x] >= 2
    ensures exists i, j :: 0 <= i < j < |xs| && xs[i] == x && xs[j] == x
  {
    assert x in multiset(xs);
    var i :| 0 <= i < |xs| && xs[i] == x;
    var rest := xs[..i] + xs[i + 1..];
    assert xs == xs[..i] + [xs[i]] + xs[i + 1..];
    assert multiset(rest)[x] >= 1;
    assert x in multiset(rest);
    var m :| 0 <= m < |rest| && rest[m] == x;
    if m < i {
      assert xs[m] == x;
      assert 0 <= m < i < |xs|;
    } else {
      assert xs[m + 1] == x;
      assert 0 <= i < m + 1 < |xs|;
    }
  }

  /** An element at two positions is in the multiset twice. */
  lemma TwiceCounted<T>(xs: seq<T>, i: int, j: int)
    requires 0 <= i < j < |xs| && xs[i] == xs[j]
    ensures multiset(xs)[xs[i]] >= 2
  {
    assert xs == xs[..i] + [xs[i]] + xs[i + 1..j] + [xs[j]] + xs[j + 1..];
  }

  /** A blank token in between is what the final filter removes. */
  lemma DropMiddleBlank(m1: Morpheme, blank: Morpheme, m2: Morpheme)
    requires !IsBlankToken(m1) && IsBlankToken(blank) && !IsBlankToken(m2)
    ensures DropBlank([m1, blank, m2]) == [m1, m2] && DropBlank([m1, m2]) == [m1, m2]
  {
    DropBlankPair(m1, m2);
    DropBlankCons(m1, [blank, m2]);
    DropBlankCons(blank, [m2]);
    DropBlankCons(m2, []);
    assert [m1, blank, m2] == [m1] + [blank, m2] && [blank, m2] == [blank] + [m2];
  }

  /** Two seeds that differ only by a blank token end up twice in the as-written result. */
  lemma AsWrittenKeepsDuplicates(m1: Morpheme, blank: Morpheme, m2: Morpheme, entries: seq<Group>,
                                 le: (string, string) -> bool)
    requires !IsBlankToken(m1) && IsBlankToken(blank) && !IsBlankToken(m2)
    requires [m1, blank, m2] in entries && [m1, m2] in entries
    ensures !AugmentWorklist.DistinctKeys(AugmentWorklist.SortBy(DropAll(entries), PipeKey, le), PipeKey)
  {
    var i :| 0 <= i < |entries| && entries[i] == [m1, blank, m2];
    var j :| 0 <= j < |entries| && entries[j] == [m1, m2];
    DropMiddleBlank(m1, blank, m2);
    assert [m1, blank, m2] != [m1, m2] by {
      assert |[m1, blank, m2]| == 3;
    }
    var d := DropAll(entries);
    assert d[i] == [m1, m2] && d[j] == [m1, m2];
    if i < j {
      TwiceCounted(d, i, j);
    } else {
      TwiceCounted(d, j, i);
    }
    var r := AugmentWorklist.SortBy(d, PipeKey, le);
    TwoPositions(r, [m1, m2]);
    var p, q :| 0 <= p < q < |r| && r[p] == [m1, m2] && r[q] == [m1, m2];
    assert PipeKey(r[p]) == PipeKey(r[q]);
  }

  /** The two seeds of the discrepancy have different keys, so the map keeps both. */
  lemma BlankChangesKey(m1: Morpheme, blank: Morpheme, m2: Morpheme)
    requires m1.surface == "私" && blank.surface == " " && m2.surface == "は"
    ensures PipeKey([m1, blank, m2]) != PipeKey([m1, m2])
  {
    var x, y, z := KeyPart(m1), KeyPart(blank), KeyPart(m2);
    assert KeyParts([m1, blank, m2]) == [x, y, z];
    assert KeyParts([m1, m2]) == [x, z];
    assert [x, y, z][1..] == [y, z] && [x, z][1..] == [z];
    var a := PipeKey([m1, blank, m2]);
    var b := PipeKey([m1, m2]);
    assert JsText.Join([y, z], "|") == y + "|" + z;
    assert JsText.Join([x, y, z], "|") == x + "|" + JsText.Join([y, z], "|");
    assert a == x + "|" + (y + "|" + z);
    assert b == x + "|" + z;
    var p := x + "|";
    assert a[|p|] == y[0] == ' ';
    assert b[|p|] == z[0] == 'は';
  }

  /**
   * The discrepancy end to end: the seeds 私␠は and 私は (with a blank token in
   * the first) both enter the map, and the returned list holds 私は twice.
   */
  lemma AsWrittenDuplicateSeeds(m1: Morpheme, blank: Morpheme, m2: Morpheme, entries: seq<Group>,
                                le: (string, string) -> bool)
    requires m1.surface == "私" && blank.surface == " " && m2.surface == "は"
    requires var initial := [[m1, blank, m2], [m1, m2]];
      forall k :: 0 <= k < |initial| && AugmentWorklist.FirstWithKey(initial, k, Identity, PipeKey) ==>
        initial[k] in entries
    ensures !AugmentWorklist.DistinctKeys(AugmentWorklist.SortBy(DropAll(entries), PipeKey, le), PipeKey)
  {
    var initial := [[m1, blank, m2], [m1, m2]];
    BlankChangesKey(m1, blank, m2);
    assert AugmentWorklist.FirstWithKey(initial, 0, Identity, PipeKey);
    assert AugmentWorklist.FirstWithKey(initial, 1, Identity, PipeKey);
    assert !IsBlankToken(m1) && IsBlankToken(blank) && !IsBlankToken(m2);
    AsWrittenKeepsDuplicates(m1, blank, m2, entries, le);
  }

  /**
   * `augmentTokenGroups` with the blank tokens removed before a group is keyed,
   * as the kana control's copies do: the returned list then has one group per key.
   */
  method AugmentTokenGroups(initial: seq<Group>, tokenize: C.Tokenizer, le: (string, string) -> bool, fuel: nat)
    returns (result: seq<Group>, complete: bool)
    ensures forall k :: 0 <= k < |initial| ==> PipeKey(DropBlank(initial[k])) in AugmentWorklist.Keys(result, PipeKey)
    ensures forall k :: 0 <= k < |initial| && AugmentWorklist.FirstWithKey(initial, k, DropBlank, PipeKey) ==>
      DropBlank(initial[k]) in result
    ensures forall i :: 0 <= i < |result| ==> NoBlank(result[i])
    ensures AugmentWorklist.DistinctKeys(result, PipeKey)
    ensures AugmentWorklist.DerivableFrom(result, initial, Expander(tokenize), DropBlank)
    ensures AugmentWorklist.TotalPreorder(le) ==> AugmentWorklist.SortedBy(result, PipeKey, le)
    ensures complete ==> forall i, k :: 0 <= i < |result| && 0 <= k < |Augmentations(result[i], tokenize)| ==>
      PipeKey(DropBlank(Augmentations(result[i], tokenize)[k])) in AugmentWorklist.Keys(result, PipeKey)
  {
    var expand := Expander(tokenize);
    var sorted;
    sorted, complete := AugmentWorklist.Augment(initial, expand, DropBlank, PipeKey, le, fuel);
    if complete {
      forall i, k | 0 <= i < |sorted| && 0 <= k < |Augmentations(sorted[i], tokenize)|
        ensures PipeKey(DropBlank(Augmentations(sorted[i], tokenize)[k])) in AugmentWorklist.Keys(sorted, PipeKey)
      {
        assert expand(sorted[i]) == Augmentations(sorted[i], tokenize);
      }
    }
    forall i | 0 <= i < |sorted|
      ensures NoBlank(sorted[i])
    {
      FilteredHasNoBlank(sorted[i]);
    }
    result := DropAll(sorted);
    DropAllUnchanged(sorted);
  }
}
