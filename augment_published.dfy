/**
 * The augmentation closure as published in the kana-control package
 * (frontend/node_modules/kana-control/augment.js). Its helpers and each of its
 * augmenters are, line for line, the ones of the kana control's own copy
 * (`AugmentKanaControl`); it runs a shorter list of them.
 */
module AugmentPublished {
  import opened Morphemes
  import AugmentWorklist
  import C = AugmentKanaControl

  /**
   * The published `tokenAugmenters`, in order: the five swaps always answer,
   * and only the reading modifiers hand back tokens, with the words of `g`.
   */
  function Expand(g: Group): (r: seq<C.Variant>)
    ensures |r| >= 5 && C.TextOrReading(g, r)
  {
    var sw, dw, jr, qu, co := C.Swaps(g), C.DropWatashiHa(g), C.JapanReadings(g), C.Quotations(g), C.Compounds(g);
    C.AllTextAppend(sw, dw);
    C.AllTextIsTextOrReading(g, sw + dw);
    C.TextOrReadingAppend(g, sw + dw, jr);
    C.AllTextIsTextOrReading(g, qu);
    C.TextOrReadingAppend(g, sw + dw + jr, qu);
    C.AllTextIsTextOrReading(g, co);
    C.TextOrReadingAppend(g, sw + dw + jr + qu, co);
    sw + dw + jr + qu + co
  }

  /** One group per variant; a variant handed back as tokens keeps the words of `g`. */
  function Augmentations(g: Group, tokenize: C.Tokenizer): (r: seq<Group>)
    ensures |r| == |Expand(g)| >= 5
    ensures forall k :: 0 <= k < |r| && Expand(g)[k].Direct? ==> C.SameWords(g, r[k])
  {
    var vs := Expand(g);
    C.RealisedWords(g, vs, tokenize);
    C.RealiseAll(vs, tokenize)
  }

  /** The expansion step of the worklist: the augmentations of a group. */
  function Expander(tokenize: C.Tokenizer): Group -> seq<Group> {
    g => Augmentations(g, tokenize)
  }

  /** `augmentTokenGroups`: the same worklist and sort as the kana control's copy, over the shorter list. */
  method AugmentTokenGroups(initial: seq<Group>, tokenize: C.Tokenizer, le: (string, string) -> bool, fuel: nat)
    returns (result: seq<Group>, complete: bool)
    ensures forall k :: 0 <= k < |initial| ==> JsonKey(DropBlank(initial[k])) in AugmentWorklist.Keys(result, JsonKey)
    ensures forall k :: 0 <= k < |initial| && AugmentWorklist.FirstWithKey(initial, k, DropBlank, JsonKey) ==>
      DropBlank(initial[k]) in result
    ensures forall i :: 0 <= i < |result| ==> NoBlank(result[i])
    ensures AugmentWorklist.DistinctKeys(result, JsonKey)
    ensures AugmentWorklist.DerivableFrom(result, initial, Expander(tokenize), DropBlank)
    ensures AugmentWorklist.TotalPreorder(le) ==> AugmentWorklist.SortedBy(result, JsonKey, le)
    ensures complete ==> forall i, k :: 0 <= i < |result| && 0 <= k < |Augmentations(result[i], tokenize)| ==>
      JsonKey(DropBlank(Augmentations(result[i], tokenize)[k])) in AugmentWorklist.Keys(result, JsonKey)
  {
    var expand := Expander(tokenize);
    result, complete := AugmentWorklist.Augment(initial, expand, DropBlank, JsonKey, le, fuel);
    if complete {
      forall i, k | 0 <= i < |result| && 0 <= k < |Augmentations(result[i], tokenize)|
        ensures JsonKey(DropBlank(Augmentations(result[i], tokenize)[k])) in AugmentWorklist.Keys(result, JsonKey)
      {
        assert expand(result[i]) == Augmentations(result[i], tokenize);
      }
    }
    forall i | 0 <= i < |result|
      ensures NoBlank(result[i])
    {
      FilteredHasNoBlank(result[i]);
    }
  }
}
