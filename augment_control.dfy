/**
 * The answer-augmentation closure of the kana control
 * (frontend/temp_kana_control/augment.js): a list of augmenters, each a
 * guard on a token group plus a rewrite, and `augmentTokenGroups`, which
 * runs every augmenter on every group it discovers until no new lexical key
 * appears.
 *
 * An augmenter either hands a text to the tokenizer or builds a new group
 * itself; `Variant` records which, and `Realise` applies the tokenizer, which
 * is a parameter of the model. Every text an augmenter builds joins the
 * surfaces of the group with one space after changing one of them (or
 * several, for the whole-token replacements), so its contract states the
 * text as `Join(Surfaces(g)[i := w], " ")`; `JsText.JoinSplit` shows that the
 * tokenizer's input then splits back into exactly those words.
 */
module AugmentKanaControl {
  import opened Wrappers
  import JsText
  import opened Morphemes
  import AugmentWorklist

  const Noun := "名詞"
  const Symbol := "記号"
  const Verb := "動詞"
  const Particle := "助詞"

  /** What an augmenter returns: a text for the tokenizer, or a group it built itself. */
  datatype Variant = Retokenize(text: string) | Direct(group: Group)

  type Tokenizer = string -> Group

  function Realise(v: Variant, tokenize: Tokenizer): Group {
    match v
    case Retokenize(t) => tokenize(t)
    case Direct(g) => g
  }

  function RealiseAll(vs: seq<Variant>, tokenize: Tokenizer): (r: seq<Group>)
    ensures |r| == |vs| && forall i :: 0 <= i < |vs| ==> r[i] == Realise(vs[i], tokenize)
  {
    if vs == [] then [] else [Realise(vs[0], tokenize)] + RealiseAll(vs[1..], tokenize)
  }

  /** `h` is `g` with at most the readings of its tokens changed. */
  predicate SameWords(g: Group, h: Group) {
    |h| == |g| && forall j :: 0 <= j < |g| ==> h[j].(reading := g[j].reading) == g[j]
  }

  /** Every variant is a text to tokenize, or `g` itself with only readings changed. */
  predicate TextOrReading(g: Group, vs: seq<Variant>) {
    forall i :: 0 <= i < |vs| ==> vs[i].Retokenize? || SameWords(g, vs[i].group)
  }

  /** The one-variant answer of an augmenter that tokenizes `words` joined with spaces. */
  function Spaced(words: seq<string>): seq<Variant> {
    [Retokenize(JsText.Join(words, " "))]
  }

  /** Every variant is a text to tokenize. */
  predicate AllText(vs: seq<Variant>) {
    forall i :: 0 <= i < |vs| ==> vs[i].Retokenize?
  }

  // ---------------------------------------------------------------------------
  // Searching a group
  // ---------------------------------------------------------------------------

  /** The first index whose token has surface `s`, or -1 when there is none. */
  function FirstSurface(g: Group, s: string): (r: int)
    ensures -1 <= r < |g|
    ensures r >= 0 ==> g[r].surface == s
    ensures forall k :: 0 <= k < |g| && (r == -1 || k < r) ==> g[k].surface != s
  {
    if g == [] then -1
    else if g[0].surface == s then 0
    else
      var r := FirstSurface(g[1..], s);
      assert forall k :: 1 <= k < |g| ==> g[k] == g[1..][k - 1];
      if r == -1 then -1 else r + 1
  }

  /** The position `lastIdx` reached by scanning down from `n - 1` over 記号 tokens. */
  function NonSymbolBelow(g: Group, n: nat): (r: int)
    requires n <= |g|
    ensures -1 <= r < n
    ensures r >= 0 ==> g[r].pos != Symbol
    ensures forall k :: r < k < n ==> g[k].pos == Symbol
  {
    if n == 0 then -1
    else if g[n - 1].pos != Symbol then n - 1
    else NonSymbolBelow(g, n - 1)
  }

  /** The last token that is not 記号, or -1 when there is none. */
  function LastNonSymbol(g: Group): (r: int)
    ensures -1 <= r < |g|
    ensures r >= 0 ==> g[r].pos != Symbol
    ensures forall k :: r < k < |g| ==> g[k].pos == Symbol
  {
    NonSymbolBelow(g, |g|)
  }

  /** The loop that walks back from the end of the group past every 記号 token. */
  method FindLastNonSymbol(g: Group) returns (lastIdx: int)
    ensures lastIdx == LastNonSymbol(g)
  {
    lastIdx := |g| - 1;
    while lastIdx >= 0 && g[lastIdx].pos == Symbol
      invariant -1 <= lastIdx < |g|
      invariant NonSymbolBelow(g, lastIdx + 1) == LastNonSymbol(g)
    {
      lastIdx := lastIdx - 1;
    }
  }

  /** The first `i` whose neighbours `g[i], g[i + 1]` satisfy `p`, scanning from `from`, or -1. */
  function FirstPairFrom(g: Group, p: (Morpheme, Morpheme) -> bool, from: nat): (r: int)
    requires from <= |g|
    ensures r == -1 || (from <= r && r + 1 < |g| && p(g[r], g[r + 1]))
    ensures forall i :: from <= i && i + 1 < |g| && (r == -1 || i < r) ==> !p(g[i], g[i + 1])
    decreases |g| - from
  {
    if from + 1 >= |g| then -1
    else if p(g[from], g[from + 1]) then from
    else FirstPairFrom(g, p, from + 1)
  }

  function FirstPair(g: Group, p: (Morpheme, Morpheme) -> bool): (r: int)
    ensures r == -1 || (0 <= r && r + 1 < |g| && p(g[r], g[r + 1]))
    ensures forall i :: 0 <= i && i + 1 < |g| && (r == -1 || i < r) ==> !p(g[i], g[i + 1])
  {
    FirstPairFrom(g, p, 0)
  }

  /** The left-to-right scans over neighbouring tokens that stop at the first matching pair. */
  method FindFirstPair(g: Group, p: (Morpheme, Morpheme) -> bool) returns (idx: int)
    ensures idx == FirstPair(g, p)
  {
    var i := 0;
    while i < |g| - 1
      invariant 0 <= i <= |g|
      invariant FirstPairFrom(g, p, i) == FirstPair(g, p)
    {
      if p(g[i], g[i + 1]) {
        return i;
      }
      i := i + 1;
    }
    return -1;
  }

  // ---------------------------------------------------------------------------
  // Rewriting surfaces
  // ---------------------------------------------------------------------------

  /** The surfaces of the group with the one at `idx` replaced by `w`. */
  function SurfacesWith(g: Group, idx: int, w: string): (r: seq<string>)
    ensures 0 <= idx < |g| ==> r == Surfaces(g)[idx := w]
    ensures !(0 <= idx < |g|) ==> r == Surfaces(g)
  {
    seq(|g|, k requires 0 <= k < |g| => if k == idx then w else g[k].surface)
  }

  /** The surfaces of `g` with every one equal to `search` turned into `rep`. */
  function SurfacesReplacing(g: Group, search: string, rep: string): (r: seq<string>)
    ensures |r| == |g|
    ensures forall k :: 0 <= k < |g| ==> r[k] == (if g[k].surface == search then rep else g[k].surface)
    ensures search !in Surfaces(g) ==> r == Surfaces(g)
  {
    if g == [] then []
    else
      var rest := SurfacesReplacing(g[1..], search, rep);
      assert forall k :: 1 <= k < |g| ==> g[k] == g[1..][k - 1];
      [if g[0].surface == search then rep else g[0].surface] + rest
  }

  // ---------------------------------------------------------------------------
  // The augmenters
  // ---------------------------------------------------------------------------

  /** `makeReplaceWholeToken(search, rep)`: one variant, every `search` token replaced. */
  function ReplaceWhole(search: string, rep: string, g: Group): (r: seq<Variant>)
    ensures |r| == 1 && r[0].Retokenize?
    ensures r[0].text == JsText.Join(SurfacesReplacing(g, search, rep), " ")
    ensures search !in Surfaces(g) ==> r[0].text == Raw(g)
  {
    Spaced(SurfacesReplacing(g, search, rep))
  }

  /**
   * When neither the surfaces nor `rep` hold a space, the variant's words are
   * the group's surfaces with every `search` turned into `rep`.
   */
  lemma ReplaceWholeWords(search: string, rep: string, g: Group)
    requires g != [] && ' ' !in rep && forall k :: 0 <= k < |g| ==> ' ' !in g[k].surface
    ensures var words := JsText.Split(ReplaceWhole(search, rep, g)[0].text, ' ');
      |words| == |g| && forall k :: 0 <= k < |g| ==> words[k] == (if g[k].surface == search then rep else g[k].surface)
  {
    JsText.JoinSplit(SurfacesReplacing(g, search, rep), ' ');
  }

  /**
   * Where です/だ may be swapped: it is the last token, or the last but one
   * before a 記号 or 名詞; and it is first or follows a 名詞.
   */
  predicate CopulaAllowed(g: Group, d: int)
    requires 0 <= d < |g|
  {
    var n := |g|;
    (d == n - 1 || (d == n - 2 && (g[n - 1].pos == Symbol || g[n - 1].pos == Noun))) &&
    (d == 0 || g[d - 1].pos == Noun)
  }

  /**
   * `augmentDesuDaTokens` as written: the position test runs even when no
   * token is です, and then an empty group or a single 記号/名詞 token passes it.
   */
  function DesuDaAsWritten(g: Group): (r: seq<Variant>)
    ensures AllText(r)
    ensures var d := FirstSurface(g, "です");
      (r != [] <==>
         (d >= 0 && CopulaAllowed(g, d)) ||
         (d == -1 && (g == [] || (|g| == 1 && (g[0].pos == Symbol || g[0].pos == Noun))))) &&
      (r != [] && d >= 0 ==> r == Spaced(Surfaces(g)[d := "だ"])) &&
      (r != [] && d == -1 ==> r == Spaced(Surfaces(g)))
  {
    var d := FirstSurface(g, "です");
    var n := |g|;
    if d != n - 1 && (d != n - 2 || (g[n - 1].pos != Symbol && g[n - 1].pos != Noun)) then []
    else if d > 0 && g[d - 1].pos != Noun then []
    else Spaced(SurfacesWith(g, d, "だ"))
  }

  /** `augmentDesuDaTokens` with the guard for a missing です that its だ→です twin has. */
  function DesuDa(g: Group): (r: seq<Variant>)
    ensures AllText(r)
    ensures var d := FirstSurface(g, "です");
      (r != [] <==> d >= 0 && CopulaAllowed(g, d)) &&
      (r != [] ==> r == Spaced(Surfaces(g)[d := "だ"]))
  {
    if FirstSurface(g, "です") == -1 then [] else DesuDaAsWritten(g)
  }

  /** No です anywhere, yet the as-written augmenter produces a variant. */
  lemma DesuDaWithoutDesu(m: Morpheme)
    requires m.surface != "です" && m.pos == Noun
    ensures DesuDaAsWritten([]) == [Retokenize("")] && DesuDa([]) == []
    ensures DesuDaAsWritten([m]) == [Retokenize(m.surface)] && DesuDa([m]) == []
  {
    assert FirstSurface([m], "です") == -1;
    assert SurfacesWith([m], -1, "だ") == [m.surface];
  }

  /** The replacer of `augmentDropWatashiHa`: cut a leading 私 は from the space-separated words. */
  function DropWatashiHaText(raw: string): (r: string)
    ensures var parts := JsText.NonEmpty(JsText.Split(raw, ' '));
      |parts| >= 2 && parts[0] == "私" && parts[1] == "は" ==> JsText.NonEmpty(JsText.Split(r, ' ')) == parts[2..]
  {
    var parts := JsText.NonEmpty(JsText.Split(raw, ' '));
    if |parts| >= 2 && parts[0] == "私" && parts[1] == "は" then
      WordsSplitBack(parts[2..]);
      JsText.Join(parts[2..], " ")
    else raw
  }

  /** Non-empty words without spaces, joined with spaces, split back into themselves. */
  lemma WordsSplitBack(ws: seq<string>)
    requires forall k :: 0 <= k < |ws| ==> ws[k] != "" && ' ' !in ws[k]
    ensures JsText.NonEmpty(JsText.Split(JsText.Join(ws, " "), ' ')) == ws
  {
    if ws == [] {
      assert JsText.Split("", ' ') == [""];
    } else {
      JsText.JoinSplit(ws, ' ');
      JsText.NonEmptyKeepsAll(ws);
    }
  }

  predicate NoSpaceSurfaces(g: Group) {
    forall k :: 0 <= k < |g| ==> ' ' !in g[k].surface
  }

  /** `augmentDropWatashiHa`: a group of more than two tokens starting 私 は loses those two. */
  function DropWatashiHa(g: Group): (r: seq<Variant>)
    ensures AllText(r)
    ensures r != [] <==> |g| > 2 && g[0].surface == "私" && g[1].surface == "は"
    ensures r != [] ==> |r| == 1 && r[0].Retokenize?
  {
    if |g| > 2 && g[0].surface == "私" && g[1].surface == "は" then [Retokenize(DropWatashiHaText(Raw(g)))]
    else []
  }

  /**
   * On a group without blank tokens and without spaces inside surfaces, the
   * variant is exactly the group's words minus the leading 私 は.
   */
  lemma DropWatashiHaWords(g: Group)
    requires |g| > 2 && g[0].surface == "私" && g[1].surface == "は"
    requires NoBlank(g) && NoSpaceSurfaces(g)
    ensures DropWatashiHa(g) == Spaced(Surfaces(g)[2..])
  {
    var ws := Surfaces(g);
    JsText.JoinSplit(ws, ' ');
    forall k | 0 <= k < |ws|
      ensures ws[k] != ""
    {
      assert !IsBlankToken(g[k]);
    }
    JsText.NonEmptyKeepsAll(ws);
  }

  /**
   * `makeReadingModifierAugmenter(surface, reading)`: a copy of the group in
   * which the first token with that surface has the new reading.
   */
  function ReadingModifier(surface: string, reading: string, g: Group): (r: seq<Variant>)
    ensures r == [] <==> surface !in Surfaces(g)
    ensures r != [] ==>
      var i := FirstSurface(g, surface);
      |r| == 1 && r[0].Direct? && |r[0].group| == |g| &&
      r[0].group[i] == g[i].(reading := Some(reading)) &&
      forall k :: 0 <= k < |g| && k != i ==> r[0].group[k] == g[k]
  {
    var i := FirstSurface(g, surface);
    if i == -1 then [] else [Direct(g[i := g[i].(reading := Some(reading))])]
  }

  /** The だ→です augmenter. */
  function DaDesu(g: Group): (r: seq<Variant>)
    ensures AllText(r)
    ensures var d := FirstSurface(g, "だ");
      (r != [] <==> d >= 0 && CopulaAllowed(g, d)) &&
      (r != [] ==> r == Spaced(Surfaces(g)[d := "です"]))
  {
    var d := FirstSurface(g, "だ");
    var n := |g|;
    if d == -1 then []
    else if d != n - 1 && (d != n - 2 || (g[n - 1].pos != Symbol && g[n - 1].pos != Noun)) then []
    else if d > 0 && g[d - 1].pos != Noun then []
    else Spaced(SurfacesWith(g, d, "です"))
  }

  /** では followed by あり and then ない. */
  predicate DewaAriNai(g: Group, i: int)
    requires 0 <= i < |g|
  {
    i + 2 < |g| && g[i + 1].surface == "あり" && g[i + 2].surface == "ない"
  }

  /** The では→じゃ augmenter, which leaves ではありない alone. */
  function DewaJa(g: Group): (r: seq<Variant>)
    ensures AllText(r)
    ensures var i := FirstSurface(g, "では");
      (r != [] <==> i >= 0 && !DewaAriNai(g, i)) &&
      (r != [] ==> r == Spaced(Surfaces(g)[i := "じゃ"]))
  {
    var i := FirstSurface(g, "では");
    if i == -1 then []
    else if i + 1 < |g| && g[i + 1].surface == "あり" && i + 2 < |g| && g[i + 2].surface == "ない" then []
    else Spaced(SurfacesWith(g, i, "じゃ"))
  }

  /** The じゃ→では augmenter. */
  function JaDewa(g: Group): (r: seq<Variant>)
    ensures AllText(r)
    ensures var i := FirstSurface(g, "じゃ");
      (r != [] <==> i >= 0) && (r != [] ==> r == Spaced(Surfaces(g)[i := "では"]))
  {
    var i := FirstSurface(g, "じゃ");
    if i == -1 then [] else Spaced(SurfacesWith(g, i, "では"))
  }

  /** The last non-symbol token is いる after a て or で token: the split progressive. */
  predicate SplitProgressive(g: Group, last: int)
    requires -1 <= last < |g|
  {
    last >= 1 && g[last].pos == Verb && g[last].surface == "いる" &&
    (g[last - 1].surface == "て" || g[last - 1].surface == "で")
  }

  /** ている→てる then でいる→でる. */
  function ContractProgressive(s: string): string {
    JsText.ReplaceAll(JsText.ReplaceAll(s, "ている", "てる"), "でいる", "でる")
  }

  /** The progressive augmenter: only the last non-symbol token changes, and only a 動詞. */
  function Progressive(g: Group): (r: seq<Variant>)
    ensures AllText(r)
    ensures var last := LastNonSymbol(g);
      (r != [] <==>
        (last >= 0 && g[last].pos == Verb &&
         (SplitProgressive(g, last) ||
          JsText.Contains(g[last].surface, "ている") || JsText.Contains(g[last].surface, "でいる")))) &&
      (r != [] && SplitProgressive(g, last) ==> r == Spaced(Surfaces(g)[last := "る"])) &&
      (r != [] && !SplitProgressive(g, last) ==>
        r == Spaced(Surfaces(g)[last := ContractProgressive(g[last].surface)]))
  {
    var last := LastNonSymbol(g);
    if last >= 1 && g[last].pos == Verb && g[last].surface == "いる" &&
       (g[last - 1].surface == "て" || g[last - 1].surface == "で") then
      Spaced(SurfacesWith(g, last, "る"))
    else if last < 0 then []
    else if g[last].pos != Verb then []
    else
      var s := g[last].surface;
      if !JsText.Contains(s, "ている") && !JsText.Contains(s, "でいる") then []
      else Spaced(SurfacesWith(g, last, ContractProgressive(s)))
  }

  /** 助詞 と followed by the 動詞 言う. */
  predicate ToIu(a: Morpheme, b: Morpheme) {
    a.surface == "と" && a.pos == Particle && b.pos == Verb && (b.basicForm == "言う" || b.surface == "言う")
  }

  /** って followed by the 動詞 言う. */
  predicate TteIu(a: Morpheme, b: Morpheme) {
    a.surface == "って" && b.pos == Verb && (b.basicForm == "言う" || b.surface == "言う")
  }

  /** 助詞 と followed by the 動詞 思う. */
  predicate ToOmou(a: Morpheme, b: Morpheme) {
    a.surface == "と" && a.pos == Particle && b.pos == Verb && (b.basicForm == "思う" || b.surface == "思う")
  }

  /** って followed by the 動詞 思う. */
  predicate TteOmou(a: Morpheme, b: Morpheme) {
    a.surface == "って" && b.pos == Verb && (b.basicForm == "思う" || b.surface == "思う")
  }

  /**
   * A whole-token rewrite when `whole` occurs, else a rewrite of the first
   * token of the first pair satisfying `p` (both quotation augmenters).
   */
  function WholeOrPair(g: Group, whole: string, wholeRep: string, p: (Morpheme, Morpheme) -> bool, pairRep: string)
    : (r: seq<Variant>)
    ensures var w := FirstSurface(g, whole);
      var i := FirstPair(g, p);
      (r != [] <==> w >= 0 || i >= 0) &&
      (w >= 0 ==> r == Spaced(Surfaces(g)[w := wholeRep])) &&
      (w == -1 && i >= 0 ==> r == Spaced(Surfaces(g)[i := pairRep]))
  {
    var w := FirstSurface(g, whole);
    if w != -1 then Spaced(SurfacesWith(g, w, wholeRep))
    else
      var i := FirstPair(g, p);
      if i == -1 then [] else Spaced(SurfacesWith(g, i, pairRep))
  }

  /** The first token of the first pair satisfying `p` is rewritten (the 思う augmenters). */
  function PairOnly(g: Group, p: (Morpheme, Morpheme) -> bool, rep: string): (r: seq<Variant>)
    ensures var i := FirstPair(g, p);
      (r != [] <==> i >= 0) && (i >= 0 ==> r == Spaced(Surfaces(g)[i := rep]))
  {
    var i := FirstPair(g, p);
    if i == -1 then [] else Spaced(SurfacesWith(g, i, rep))
  }

  /** Some token of `g` has surface `s`. */
  predicate HasSurface(g: Group, s: string) {
    exists k :: 0 <= k < |g| && g[k].surface == s
  }

  /** Some neighbours `g[i], g[i + 1]` satisfy `p`. */
  predicate HasPair(g: Group, p: (Morpheme, Morpheme) -> bool) {
    exists i :: 0 <= i && i + 1 < |g| && p(g[i], g[i + 1])
  }

  /**
   * The quotation augmenter: the first という becomes っていう; without one,
   * the と of the first と+言う becomes って.
   */
  function Quotation(g: Group): (r: seq<Variant>)
    ensures AllText(r)
    ensures r != [] <==> HasSurface(g, "という") || HasPair(g, ToIu)
    ensures var w := FirstSurface(g, "という");
      w >= 0 ==> r == Spaced(Surfaces(g)[w := "っていう"])
    ensures var i := FirstPair(g, ToIu);
      !HasSurface(g, "という") && i >= 0 ==> r == Spaced(Surfaces(g)[i := "って"])
  {
    WholeOrPair(g, "という", "っていう", ToIu, "って")
  }

  /**
   * The reverse quotation augmenter: the first っていう becomes という;
   * without one, the って of the first って+言う becomes と.
   */
  function ReverseQuotation(g: Group): (r: seq<Variant>)
    ensures AllText(r)
    ensures r != [] <==> HasSurface(g, "っていう") || HasPair(g, TteIu)
    ensures var w := FirstSurface(g, "っていう");
      w >= 0 ==> r == Spaced(Surfaces(g)[w := "という"])
    ensures var i := FirstPair(g, TteIu);
      !HasSurface(g, "っていう") && i >= 0 ==> r == Spaced(Surfaces(g)[i := "と"])
  {
    WholeOrPair(g, "っていう", "という", TteIu, "と")
  }

  /** The と of the first と+思う becomes って; nothing when there is none. */
  function ToOmouTte(g: Group): (r: seq<Variant>)
    ensures AllText(r)
    ensures r != [] <==> HasPair(g, ToOmou)
    ensures var i := FirstPair(g, ToOmou);
      i >= 0 ==> r == Spaced(Surfaces(g)[i := "って"])
  {
    PairOnly(g, ToOmou, "って")
  }

  /** The って of the first って+思う becomes と; nothing when there is none. */
  function TteOmouTo(g: Group): (r: seq<Variant>)
    ensures AllText(r)
    ensures r != [] <==> HasPair(g, TteOmou)
    ensures var i := FirstPair(g, TteOmou);
      i >= 0 ==> r == Spaced(Surfaces(g)[i := "と"])
  {
    PairOnly(g, TteOmou, "と")
  }

  /**
   * `makeReplaceCompoundToken(search, rep)`: nothing when no token is
   * `search`, else the replaced surfaces joined with no separator.
   */
  function ReplaceCompound(search: string, rep: string, g: Group): (r: seq<Variant>)
    ensures AllText(r)
    ensures r == [] <==> search !in Surfaces(g)
    ensures r != [] ==> r == [Retokenize(JsText.Concat(SurfacesReplacing(g, search, rep)))]
  {
    var parts := SurfacesReplacing(g, search, rep);
    JsText.JoinEmptySeparator(parts);
    if search !in Surfaces(g) then [] else [Retokenize(JsText.Join(parts, ""))]
  }

  /** The `found` flag loop of `makeReplaceCompoundToken`. */
  method CompoundParts(g: Group, search: string, rep: string) returns (found: bool, result: seq<string>)
    ensures found <==> search in Surfaces(g)
    ensures result == SurfacesReplacing(g, search, rep)
  {
    found := false;
    result := [];
    for i := 0 to |g|
      invariant |result| == i
      invariant forall k :: 0 <= k < i ==> result[k] == (if g[k].surface == search then rep else g[k].surface)
      invariant found <==> exists k :: 0 <= k < i && g[k].surface == search
    {
      if g[i].surface == search {
        result := result + [rep];
        found := true;
      } else {
        result := result + [g[i].surface];
      }
    }
    assert forall k :: 0 <= k < |g| ==> Surfaces(g)[k] == g[k].surface;
  }

  /** てる→ている then でる→でいる. */
  function ExpandProgressive(s: string): string {
    JsText.ReplaceAll(JsText.ReplaceAll(s, "てる", "ている"), "でる", "でいる")
  }

  /** The てる→ている augmenter on the last non-symbol 動詞. */
  function TeruTeiru(g: Group): (r: seq<Variant>)
    ensures AllText(r)
    ensures var last := LastNonSymbol(g);
      (r != [] <==>
        (last >= 0 && g[last].pos == Verb &&
         (JsText.Contains(g[last].surface, "てる") || JsText.Contains(g[last].surface, "でる")))) &&
      (r != [] ==> r == Spaced(Surfaces(g)[last := ExpandProgressive(g[last].surface)]))
  {
    var last := LastNonSymbol(g);
    if last < 0 then []
    else if g[last].pos != Verb then []
    else
      var s := g[last].surface;
      if !JsText.Contains(s, "てる") && !JsText.Contains(s, "でる") then []
      else Spaced(SurfacesWith(g, last, ExpandProgressive(s)))
  }

  /** The ます-stem augmenter: the last non-symbol 動詞 ending in ます loses it. */
  function MasuStem(g: Group): (r: seq<Variant>)
    ensures AllText(r)
    ensures var last := LastNonSymbol(g);
      (r != [] <==> last >= 0 && g[last].pos == Verb && JsText.EndsWith(g[last].surface, "ます")) &&
      (r != [] ==> exists stem :: stem + "ます" == g[last].surface && r == Spaced(Surfaces(g)[last := stem]))
  {
    var last := LastNonSymbol(g);
    if last < 0 then []
    else if g[last].pos != Verb || !JsText.EndsWith(g[last].surface, "ます") then []
    else
      var s := g[last].surface;
      var stem := s[..|s| - 2];
      assert stem + "ます" == s;
      Spaced(SurfacesWith(g, last, stem))
  }

  /** The polite form the dictionary-to-polite augmenter builds: る→ます, else う→います. */
  function PoliteForm(s: string): (r: Option<string>)
    ensures JsText.EndsWith(s, "る") ==> r.Some? && |r.value| >= 2 && r.value[..|r.value| - 2] + "る" == s
    ensures !JsText.EndsWith(s, "る") && JsText.EndsWith(s, "う") ==>
      r.Some? && |r.value| >= 3 && r.value[..|r.value| - 3] + "う" == s
    ensures r.Some? ==> JsText.EndsWith(r.value, "ます")
    ensures !JsText.EndsWith(s, "る") && !JsText.EndsWith(s, "う") ==> r == None
  {
    if JsText.EndsWith(s, "る") then
      var p := s[..|s| - 1] + "ます";
      assert p[..|p| - 2] == s[..|s| - 1];
      Some(p)
    else if JsText.EndsWith(s, "う") then
      var p := s[..|s| - 1] + "います";
      assert p[..|p| - 3] == s[..|s| - 1];
      Some(p)
    else None
  }

  /** The dictionary-to-polite augmenter on the last non-symbol 動詞. */
  function Polite(g: Group): (r: seq<Variant>)
    ensures AllText(r)
    ensures var last := LastNonSymbol(g);
      (r != [] <==> last >= 0 && g[last].pos == Verb && PoliteForm(g[last].surface).Some?) &&
      (r != [] ==> r == Spaced(Surfaces(g)[last := PoliteForm(g[last].surface).value]))
  {
    var last := LastNonSymbol(g);
    if last < 0 then []
    else if g[last].pos != Verb then []
    else
      match PoliteForm(g[last].surface)
      case None => []
      case Some(p) => Spaced(SurfacesWith(g, last, p))
  }

  /** The ませ ん→ない augmenter: the last two non-symbol tokens, unless あり precedes them. */
  function MasenNai(g: Group): (r: seq<Variant>)
    ensures AllText(r)
    ensures var last := LastNonSymbol(g);
      (r != [] <==>
        (|g| >= 2 && last >= 1 && g[last - 1].surface == "ませ" && g[last].surface == "ん" &&
         !(last >= 2 && g[last - 2].surface == "あり"))) &&
      (r != [] ==> r == Spaced(Surfaces(g)[..last - 1] + ["ない"] + Surfaces(g)[last + 1..]))
  {
    if |g| < 2 then []
    else
      var last := LastNonSymbol(g);
      if last < 1 then []
      else if g[last - 1].surface == "ませ" && g[last].surface == "ん" then
        if last >= 2 && g[last - 2].surface == "あり" then []
        else Spaced(Surfaces(g)[..last - 1] + ["ない"] + Surfaces(g)[last + 1..])
      else []
  }

  /** The ない→ませ ん augmenter: only after a 動詞. */
  function NaiMasen(g: Group): (r: seq<Variant>)
    ensures AllText(r)
    ensures var last := LastNonSymbol(g);
      (r != [] <==> |g| >= 2 && last >= 1 && g[last].surface == "ない" && g[last - 1].pos == Verb) &&
      (r != [] ==> r == Spaced(Surfaces(g)[..last] + ["ませ", "ん"] + Surfaces(g)[last + 1..]))
  {
    if |g| < 2 then []
    else
      var last := LastNonSymbol(g);
      if last < 1 then []
      else if g[last].surface != "ない" then []
      else if g[last - 1].pos != Verb then []
      else Spaced(Surfaces(g)[..last] + ["ませ", "ん"] + Surfaces(g)[last + 1..])
  }

  lemma AllTextAppend(a: seq<Variant>, b: seq<Variant>)
    requires AllText(a) && AllText(b)
    ensures AllText(a + b)
  {
    forall i | 0 <= i < |a + b|
      ensures (a + b)[i].Retokenize?
    {
      if i >= |a| {
        assert (a + b)[i] == b[i - |a|];
      }
    }
  }

  lemma TextOrReadingAppend(g: Group, a: seq<Variant>, b: seq<Variant>)
    requires TextOrReading(g, a) && TextOrReading(g, b)
    ensures TextOrReading(g, a + b)
  {
    forall i | 0 <= i < |a + b|
      ensures (a + b)[i].Retokenize? || SameWords(g, (a + b)[i].group)
    {
      if i >= |a| {
        assert (a + b)[i] == b[i - |a|];
      }
    }
  }

  /** Five one-text answers in a row are five texts. */
  lemma OneTextEach(a: seq<Variant>, b: seq<Variant>, c: seq<Variant>, d: seq<Variant>, e: seq<Variant>)
    requires |a| == |b| == |c| == |d| == |e| == 1
    requires a[0].Retokenize? && b[0].Retokenize? && c[0].Retokenize? && d[0].Retokenize? && e[0].Retokenize?
    ensures |a + b + c + d + e| == 5 && AllText(a + b + c + d + e)
  {
    assert a + b + c + d + e == [a[0], b[0], c[0], d[0], e[0]];
  }

  /** The five whole-token swaps of `tokenAugmenters`: one text each. */
  function Swaps(g: Group): (r: seq<Variant>)
    ensures |r| == 5 && AllText(r)
  {
    var s1, s2 := ReplaceWhole("私", "僕", g), ReplaceWhole("僕", "俺", g);
    var s3, s4 := ReplaceWhole("あなた", "君", g), ReplaceWhole("君", "あなた", g);
    var s5 := ReplaceWhole("私", "あたし", g);
    OneTextEach(s1, s2, s3, s4, s5);
    s1 + s2 + s3 + s4 + s5
  }

  /** The two readings of 日本: copies of `g` that keep its words. */
  function JapanReadings(g: Group): (r: seq<Variant>)
    ensures |r| <= 2 && TextOrReading(g, r)
  {
    var a, b := ReadingModifier("日本", "ニッポン", g), ReadingModifier("日本", "ニホン", g);
    TextOrReadingAppend(g, a, b);
    a + b
  }

  /** The copula augmenters that follow the readings. */
  function Copulas(g: Group): (r: seq<Variant>)
    ensures AllText(r)
  {
    var a, b, c, d := DaDesu(g), DewaJa(g), JaDewa(g), Progressive(g);
    AllTextAppend(a, b);
    AllTextAppend(a + b, c);
    AllTextAppend(a + b + c, d);
    a + b + c + d
  }

  /** The quotation augmenters. */
  function Quotations(g: Group): (r: seq<Variant>)
    ensures AllText(r)
  {
    var a, b, c, d := Quotation(g), ReverseQuotation(g), ToOmouTte(g), TteOmouTo(g);
    AllTextAppend(a, b);
    AllTextAppend(a + b, c);
    AllTextAppend(a + b + c, d);
    a + b + c + d
  }

  /** The two compound replacements between だった and でした. */
  function Compounds(g: Group): (r: seq<Variant>)
    ensures AllText(r)
  {
    var a, b := ReplaceCompound("だった", "でした", g), ReplaceCompound("でした", "だった", g);
    AllTextAppend(a, b);
    a + b
  }

  /** The verb-form augmenters at the end of the list. */
  function VerbForms(g: Group): (r: seq<Variant>)
    ensures AllText(r)
  {
    var a, b, c, d, e := TeruTeiru(g), MasuStem(g), Polite(g), MasenNai(g), NaiMasen(g);
    AllTextAppend(a, b);
    AllTextAppend(a + b, c);
    AllTextAppend(a + b + c, d);
    AllTextAppend(a + b + c + d, e);
    a + b + c + d + e
  }

  /** A text-only answer keeps the words of `g` trivially. */
  lemma AllTextIsTextOrReading(g: Group, vs: seq<Variant>)
    requires AllText(vs)
    ensures TextOrReading(g, vs)
  {
  }

  /**
   * Every augmenter of `tokenAugmenters`, in order, on one group: the five
   * whole-token swaps always answer, and only the reading modifiers hand back
   * tokens rather than a text, with the words of `g` unchanged.
   */
  function Expand(g: Group): (r: seq<Variant>)
    ensures |r| >= 5 && TextOrReading(g, r)
  {
    var sw, dd, dw, jr := Swaps(g), DesuDaAsWritten(g), DropWatashiHa(g), JapanReadings(g);
    var cp, qu, co, vf := Copulas(g), Quotations(g), Compounds(g), VerbForms(g);
    AllTextAppend(sw, dd);
    AllTextAppend(sw + dd, dw);
    AllTextIsTextOrReading(g, sw + dd + dw);
    TextOrReadingAppend(g, sw + dd + dw, jr);
    AllTextIsTextOrReading(g, cp);
    TextOrReadingAppend(g, sw + dd + dw + jr, cp);
    AllTextIsTextOrReading(g, qu);
    TextOrReadingAppend(g, sw + dd + dw + jr + cp, qu);
    AllTextIsTextOrReading(g, co);
    TextOrReadingAppend(g, sw + dd + dw + jr + cp + qu, co);
    AllTextIsTextOrReading(g, vf);
    TextOrReadingAppend(g, sw + dd + dw + jr + cp + qu + co, vf);
    sw + dd + dw + jr + cp + qu + co + vf
  }

  /** `Expand` with the corrected です→だ augmenter `DesuDa` in place of the one as written. */
  function ExpandCorrected(g: Group): (r: seq<Variant>)
    ensures |r| >= 5 && TextOrReading(g, r)
  {
    var sw, dd, dw, jr := Swaps(g), DesuDa(g), DropWatashiHa(g), JapanReadings(g);
    var cp, qu, co, vf := Copulas(g), Quotations(g), Compounds(g), VerbForms(g);
    AllTextAppend(sw, dd);
    AllTextAppend(sw + dd, dw);
    AllTextIsTextOrReading(g, sw + dd + dw);
    TextOrReadingAppend(g, sw + dd + dw, jr);
    AllTextIsTextOrReading(g, cp);
    TextOrReadingAppend(g, sw + dd + dw + jr, cp);
    AllTextIsTextOrReading(g, qu);
    TextOrReadingAppend(g, sw + dd + dw + jr + cp, qu);
    AllTextIsTextOrReading(g, co);
    TextOrReadingAppend(g, sw + dd + dw + jr + cp + qu, co);
    AllTextIsTextOrReading(g, vf);
    TextOrReadingAppend(g, sw + dd + dw + jr + cp + qu + co, vf);
    sw + dd + dw + jr + cp + qu + co + vf
  }

  /** The two です→だ augmenters agree whenever です occurs or the group has two tokens or more. */
  lemma DesuDaAgrees(g: Group)
    requires "です" in Surfaces(g) || |g| >= 2
    ensures DesuDa(g) == DesuDaAsWritten(g)
  {
    if "です" in Surfaces(g) {
      var k :| 0 <= k < |g| && Surfaces(g)[k] == "です";
      assert g[k].surface == "です";
    }
  }

  /**
   * The two lists differ only on groups without です, and there only for the
   * empty group or one token (`DesuDaWithoutDesu`).
   */
  lemma ExpandCorrectedAgrees(g: Group)
    requires "です" in Surfaces(g) || |g| >= 2
    ensures ExpandCorrected(g) == Expand(g)
  {
    DesuDaAgrees(g);
  }

  /** Tokenizing the texts leaves the variants handed back as tokens as they are. */
  lemma RealisedWords(g: Group, vs: seq<Variant>, tokenize: Tokenizer)
    requires TextOrReading(g, vs)
    ensures forall k :: 0 <= k < |vs| && vs[k].Direct? ==> SameWords(g, RealiseAll(vs, tokenize)[k])
  {
  }

  /**
   * The groups the augmenters produce from `g`, after tokenizing their texts:
   * one per variant, and a variant handed back as tokens keeps the words of `g`.
   */
  function Augmentations(g: Group, tokenize: Tokenizer): (r: seq<Group>)
    ensures |r| == |Expand(g)| >= 5
    ensures forall k :: 0 <= k < |r| && Expand(g)[k].Direct? ==> SameWords(g, r[k])
  {
    var vs := Expand(g);
    RealisedWords(g, vs, tokenize);
    RealiseAll(vs, tokenize)
  }

  /** The expansion step of the worklist: the augmentations of a group. */
  function Expander(tokenize: Tokenizer): Group -> seq<Group> {
    g => Augmentations(g, tokenize)
  }

  // ---------------------------------------------------------------------------
  // augmentTokenGroups
  // ---------------------------------------------------------------------------

  /**
   * `augmentTokenGroups`, with the worklist run for at most `fuel` groups and
   * `le(a, b)` standing for `a.localeCompare(b) <= 0`.
   */
  method AugmentTokenGroups(initial: seq<Group>, tokenize: Tokenizer, le: (string, string) -> bool, fuel: nat)
    returns (result: seq<Group>, complete: bool)
    ensures forall k :: 0 <= k < |initial| ==> JsonKey(DropBlank(initial[k])) in AugmentWorklist.Keys(result, JsonKey)
    ensures forall k :: 0 <= k < |initial| && AugmentWorklist.FirstWithKey(initial, k, DropBlank, JsonKey) ==>
      DropBlank(initial[k]) in result
    ensures forall i :: 0 <= i < |result| ==> NoBlank(result[i])
    ensures AugmentWorklist.DistinctKeys(result, JsonKey)
    ensures AugmentWorklist.DerivableFrom(result, initial, Expander(tokenize), DropBlank)
    ensures AugmentWorklist.TotalPreorder(le) ==> AugmentWorklist.SortedBy(result, JsonKey, le)
    ensures complete ==> forall i, k :: 0 <= i < |result| && 0 <= k < |Augmentations(result[i], tokenize)| ==>
      JsonKey(DropBlank(Augmentations(result[i], tokenize)[k])) in AugmentWorklist.Keys(result, JsonKey)
  {
    var expand := Expander(tokenize);
    result, complete := AugmentWorklist.Augment(initial, expand, DropBlank, JsonKey, le, fuel);
    if complete {
      forall i, k | 0 <= i < |result| && 0 <= k < |Augmentations(result[i], tokenize)|
        ensures JsonKey(DropBlank(Augmentations(result[i], tokenize)[k])) in AugmentWorklist.Keys(result, JsonKey)
      {
        assert expand(result[i]) == Augmentations(result[i], tokenize);
      }
    }
    forall i | 0 <= i < |result|
      ensures NoBlank(result[i])
    {
      FilteredHasNoBlank(result[i]);
    }
  }
}
