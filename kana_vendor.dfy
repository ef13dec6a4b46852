/**
 * Two small helpers the game bundle vendors: WanaKana's `hiraganaToKatakana`
 * and the tokenizer's `splitByPunctuation`.
 */
module KanaVendor {
  import JsText

  const HiraganaStart := 0x3041
  const HiraganaEnd := 0x3096
  const KatakanaStart := 0x30A1
  const ProlongedSoundMark := 0x30FC
  const KanaSlashDot := 0x30FB

  predicate IsHiragana(c: char) {
    HiraganaStart <= c as int <= HiraganaEnd
  }

  predicate IsConvertedKatakana(c: char) {
    KatakanaStart <= c as int <= KatakanaStart + (HiraganaEnd - HiraganaStart)
  }

  /**
   * The conversion of one character: ー and ・ pass through, a hiragana moves
   * by the distance between the two blocks, anything else passes through.
   */
  function ToKatakana(c: char): (k: char)
    ensures IsHiragana(c) ==> k as int == c as int + (KatakanaStart - HiraganaStart) && IsConvertedKatakana(k)
    ensures !IsHiragana(c) ==> k == c
  {
    if c as int == ProlongedSoundMark || c as int == KanaSlashDot then c
    else if IsHiragana(c) then (c as int + (KatakanaStart - HiraganaStart)) as char
    else c
  }

  /** The inverse shift, on the converted katakana range. */
  function ToHiragana(c: char): (h: char)
    ensures IsConvertedKatakana(c) ==> IsHiragana(h)
  {
    if IsConvertedKatakana(c) then (c as int - (KatakanaStart - HiraganaStart)) as char else c
  }

  /** `hiraganaToKatakana`: the input converted character by character. */
  method HiraganaToKatakana(input: string) returns (output: string)
    ensures |output| == |input|
    ensures forall i :: 0 <= i < |input| ==> output[i] == ToKatakana(input[i])
  {
    var kata: seq<char> := [];
    for i := 0 to |input|
      invariant |kata| == i
      invariant forall k :: 0 <= k < i ==> kata[k] == ToKatakana(input[k])
    {
      var c := input[i];
      if c as int == ProlongedSoundMark || c as int == KanaSlashDot {
        kata := kata + [c];
      } else if IsHiragana(c) {
        kata := kata + [(c as int + (KatakanaStart - HiraganaStart)) as char];
      } else {
        kata := kata + [c];
      }
    }
    output := kata;
  }

  /** Shifting back restores every character that was not already converted katakana. */
  lemma ToKatakanaInverse(c: char)
    requires !IsConvertedKatakana(c)
    ensures ToHiragana(ToKatakana(c)) == c
  {
  }

  /** Converting twice is converting once: the output holds no hiragana. */
  lemma ToKatakanaIdempotent(c: char)
    ensures !IsHiragana(ToKatakana(c)) && ToKatakana(ToKatakana(c)) == ToKatakana(c)
  {
  }

  // ---------------------------------------------------------------------------
  // splitByPunctuation
  // ---------------------------------------------------------------------------

  /** The sentence punctuation of `/、|。/`. */
  predicate IsPunctuation(c: char) {
    c == '、' || c == '。'
  }

  /** `s.search(/、|。/)`: the first punctuation index, or `|s|` for none. */
  function FirstPunctuation(s: string): (k: nat)
    ensures k <= |s| && (k < |s| ==> IsPunctuation(s[k]))
  {
    if s == [] || IsPunctuation(s[0]) then 0 else 1 + FirstPunctuation(s[1..])
  }

  /** No punctuation comes before the one `FirstPunctuation` finds. */
  lemma {:induction false} FirstPunctuationIsFirst(s: string)
    ensures forall i :: 0 <= i < FirstPunctuation(s) ==> !IsPunctuation(s[i])
  {
    if s != [] && !IsPunctuation(s[0]) {
      FirstPunctuationIsFirst(s[1..]);
      assert forall i :: 1 <= i < FirstPunctuation(s) ==> s[i] == s[1..][i - 1];
    }
  }

  /** The pieces `splitByPunctuation` cuts `s` into. */
  function Pieces(s: string): seq<string>
    decreases |s|
  {
    if s == [] then [] else PiecesAt(s, FirstPunctuation(s))
  }

  /** The pieces of `s` once its first punctuation is known to be at `k` (`|s|` for none). */
  function PiecesAt(s: string, k: nat): seq<string>
    requires s != [] && k <= |s|
    decreases |s|, 0
  {
    if k == |s| then [s] else [s[..k + 1]] + Pieces(s[k + 1..])
  }

  /** `Tokenizer.splitByPunctuation`. */
  method SplitByPunctuation(input: string) returns (sentences: seq<string>)
    ensures sentences == Pieces(input)
  {
    sentences := [];
    var tail := input;
    while tail != ""
      invariant sentences + Pieces(tail) == Pieces(input)
      decreases |tail|
    {
      var index := FirstPunctuation(tail);
      if index == |tail| {
        sentences := sentences + [tail];
        tail := "";
      } else {
        sentences := sentences + [tail[..index + 1]];
        tail := tail[index + 1..];
      }
    }
    assert sentences + [] == sentences;
  }

  /** The pieces put back together are the input, and none is empty. */
  lemma {:induction false} PiecesConcat(s: string)
    ensures JsText.Concat(Pieces(s)) == s
    ensures forall i :: 0 <= i < |Pieces(s)| ==> Pieces(s)[i] != ""
    decreases |s|
  {
    if s != [] {
      var k := FirstPunctuation(s);
      if k < |s| {
        PiecesConcat(s[k + 1..]);
        var rest := Pieces(s[k + 1..]);
        assert ([s[..k + 1]] + rest)[1..] == rest;
        assert s[..k + 1] + s[k + 1..] == s;
      }
    }
  }

  /** Punctuation occurs in a piece only as its last character. */
  predicate PunctuationOnlyAtEnd(p: string) {
    forall i :: 0 <= i < |p| - 1 ==> !IsPunctuation(p[i])
  }

  /** Pieces after the first are the pieces of what follows the first punctuation. */
  lemma PiecesUnfold(s: string, k: nat)
    requires s != [] && k == FirstPunctuation(s) && k < |s|
    ensures Pieces(s) == [s[..k + 1]] + Pieces(s[k + 1..])
  {
    var rest := Pieces(s[k + 1..]);
    assert Pieces(s) == [s[..k + 1]] + rest;
  }

  /** The first piece ends at the first punctuation. */
  lemma FirstPieceShape(s: string, k: nat)
    requires k == FirstPunctuation(s) && k < |s|
    ensures PunctuationOnlyAtEnd(s[..k + 1]) && EndsWithPunctuation(s[..k + 1])
  {
    FirstPunctuationIsFirst(s);
  }

  /** Punctuation occurs in a piece only as its last character. */
  lemma {:induction false} PiecesPunctuationAtEnd(s: string)
    ensures forall i :: 0 <= i < |Pieces(s)| ==> PunctuationOnlyAtEnd(Pieces(s)[i])
    decreases |s|
  {
    if s != [] {
      var k := FirstPunctuation(s);
      if k < |s| {
        var rest := s[k + 1..];
        PiecesUnfold(s, k);
        FirstPieceShape(s, k);
        PiecesPunctuationAtEnd(rest);
        ConsPunctuationAtEnd(s[..k + 1], Pieces(rest));
      } else {
        FirstPunctuationIsFirst(s);
      }
    }
  }

  lemma ConsPunctuationAtEnd(x: string, ps: seq<string>)
    requires PunctuationOnlyAtEnd(x)
    requires forall i :: 0 <= i < |ps| ==> PunctuationOnlyAtEnd(ps[i])
    ensures forall i :: 0 <= i < |[x] + ps| ==> PunctuationOnlyAtEnd(([x] + ps)[i])
  {
    forall i | 0 <= i < |[x] + ps|
      ensures PunctuationOnlyAtEnd(([x] + ps)[i])
    {
      if i > 0 {
        assert ([x] + ps)[i] == ps[i - 1];
      }
    }
  }

  /** A non-empty text whose last character is punctuation. */
  predicate EndsWithPunctuation(p: string) {
    p != [] && IsPunctuation(p[|p| - 1])
  }

  /** Every piece but the last ends with punctuation. */
  lemma {:induction false} PiecesEndWithPunctuation(s: string)
    ensures forall i :: 0 <= i < |Pieces(s)| - 1 ==> EndsWithPunctuation(Pieces(s)[i])
    decreases |s|
  {
    if s != [] {
      var k := FirstPunctuation(s);
      if k < |s| {
        var rest := s[k + 1..];
        PiecesUnfold(s, k);
        FirstPieceShape(s, k);
        PiecesEndWithPunctuation(rest);
        ConsEndWithPunctuation(s[..k + 1], Pieces(rest));
      }
    }
  }

  lemma ConsEndWithPunctuation(x: string, ps: seq<string>)
    requires EndsWithPunctuation(x)
    requires forall i :: 0 <= i < |ps| - 1 ==> EndsWithPunctuation(ps[i])
    ensures forall i :: 0 <= i < |[x] + ps| - 1 ==> EndsWithPunctuation(([x] + ps)[i])
  {
    forall i | 0 <= i < |[x] + ps| - 1
      ensures EndsWithPunctuation(([x] + ps)[i])
    {
      if i > 0 {
        assert ([x] + ps)[i] == ps[i - 1];
      }
    }
  }

  /** The last piece ends with punctuation exactly when the input does. */
  lemma {:induction false} PiecesLast(s: string)
    ensures Pieces(s) != [] ==>
      var last := Pieces(s)[|Pieces(s)| - 1];
      last != [] && (IsPunctuation(last[|last| - 1]) <==> IsPunctuation(s[|s| - 1]))
    decreases |s|
  {
    if s != [] {
      var k := FirstPunctuation(s);
      if k < |s| {
        var rest := s[k + 1..];
        var ps := Pieces(rest);
        PiecesUnfold(s, k);
        if rest == [] {
          assert Pieces(s) == [s[..k + 1]];
          assert s[..k + 1] == s;
        } else {
          PiecesLast(rest);
          assert ps != [];
          assert Pieces(s)[|Pieces(s)| - 1] == ps[|ps| - 1];
          assert rest[|rest| - 1] == s[|s| - 1];
        }
      }
    }
  }
}
