/**
 * The kuromoji IPADIC token (`IpadicFeatures`) that the augmentation code
 * works on, the whitespace filter it applies, and its two lexical keys.
 */
module Morphemes {
  import opened Wrappers
  import JsText

  /**
   * A token of the tokenizer: the features the augmenters read, plus the rest
   * of the IPADIC features (details, conjugated type, pronunciation, ids, ...).
   * A missing `reading` (unknown words) is `None`.
   */
  datatype Morpheme = Morpheme(
    surface: string,
    pos: string,
    conjugatedForm: string,
    basicForm: string,
    reading: Option<string>,
    details: seq<string>)

  type Group = seq<Morpheme>

  function Surfaces(g: Group): (r: seq<string>)
    ensures |r| == |g| && forall i :: 0 <= i < |g| ==> r[i] == g[i].surface
  {
    if g == [] then [] else [g[0].surface] + Surfaces(g[1..])
  }

  /**
   * The surfaces of the group joined with single spaces; when no surface holds
   * a space, splitting the text at spaces gives the surfaces back.
   */
  function Raw(g: Group): (r: string)
    ensures g != [] && (forall k :: 0 <= k < |g| ==> ' ' !in g[k].surface) ==> JsText.Split(r, ' ') == Surfaces(g)
  {
    RawSplits(g);
    JsText.Join(Surfaces(g), " ")
  }

  lemma RawSplits(g: Group)
    ensures g != [] && (forall k :: 0 <= k < |g| ==> ' ' !in g[k].surface) ==>
      JsText.Split(JsText.Join(Surfaces(g), " "), ' ') == Surfaces(g)
  {
    if g != [] && (forall k :: 0 <= k < |g| ==> ' ' !in g[k].surface) {
      JsText.JoinSplit(Surfaces(g), ' ');
    }
  }

  /**
   * A token whose surface is white space only; `BlankTokenIsTrimmedEmpty`
   * shows that these are exactly the tokens that trimming leaves empty.
   */
  predicate IsBlankToken(m: Morpheme) {
    JsText.AllWhitespace(m.surface)
  }

  /** The whitespace filter's test: trimming the surface leaves nothing. */
  lemma BlankTokenIsTrimmedEmpty(m: Morpheme)
    ensures IsBlankToken(m) <==> JsText.IsBlank(m.surface)
  {
    JsText.BlankIffAllWhitespace(m.surface);
  }

  /** The group without its blank tokens, in order. */
  function DropBlank(g: Group): (r: Group)
    ensures |r| <= |g|
  {
    if g == [] then []
    else if IsBlankToken(g[0]) then DropBlank(g[1..])
    else [g[0]] + DropBlank(g[1..])
  }

  predicate NoBlank(g: Group) {
    forall i :: 0 <= i < |g| ==> !IsBlankToken(g[i])
  }

  /** The filter keeps exactly the non-blank tokens. */
  lemma {:induction false} DropBlankKeeps(g: Group)
    ensures forall i :: 0 <= i < |DropBlank(g)| ==> !IsBlankToken(DropBlank(g)[i]) && DropBlank(g)[i] in g
    ensures forall i :: 0 <= i < |g| && !IsBlankToken(g[i]) ==> g[i] in DropBlank(g)
  {
    if g != [] {
      DropBlankKeeps(g[1..]);
      assert forall i :: 1 <= i < |g| ==> g[i] == g[1..][i - 1];
    }
  }

  /** A group without blank tokens passes the filter unchanged. */
  lemma {:induction false} DropBlankUnchanged(g: Group)
    requires NoBlank(g)
    ensures DropBlank(g) == g
  {
    if g != [] {
      assert NoBlank(g[1..]) by {
        assert forall i :: 1 <= i < |g| ==> g[i] == g[1..][i - 1];
      }
      DropBlankUnchanged(g[1..]);
    }
  }

  lemma DropBlankIdempotent(g: Group)
    ensures NoBlank(DropBlank(g)) && DropBlank(DropBlank(g)) == DropBlank(g)
  {
    DropBlankKeeps(g);
    DropBlankUnchanged(DropBlank(g));
  }

  /** A group the filter produced has no blank token left. */
  lemma FilteredHasNoBlank(g: Group)
    requires exists x :: g == DropBlank(x)
    ensures NoBlank(g)
  {
    var x :| g == DropBlank(x);
    DropBlankIdempotent(x);
  }

  /** One step of the filter. */
  lemma DropBlankCons(m: Morpheme, rest: Group)
    ensures DropBlank([m] + rest) == (if IsBlankToken(m) then DropBlank(rest) else [m] + DropBlank(rest))
  {
    assert ([m] + rest)[1..] == rest;
  }

  lemma {:induction false} DropBlankAppend(a: Group, b: Group)
    ensures DropBlank(a + b) == DropBlank(a) + DropBlank(b)
  {
    if a != [] {
      DropBlankAppend(a[1..], b);
      assert a + b == [a[0]] + (a[1..] + b);
      assert a == [a[0]] + a[1..];
      DropBlankCons(a[0], a[1..] + b);
      DropBlankCons(a[0], a[1..]);
    } else {
      assert a + b == b;
    }
  }

  /** A token whose surface starts with a character that is not white space is not blank. */
  lemma NotBlank(m: Morpheme)
    requires m.surface != [] && !JsText.IsJsWhitespace(m.surface[0])
    ensures !IsBlankToken(m)
  {
  }

  /** Two non-blank tokens pass the filter. */
  lemma DropBlankPair(a: Morpheme, b: Morpheme)
    requires !IsBlankToken(a) && !IsBlankToken(b)
    ensures DropBlank([a, b]) == [a, b]
  {
    DropBlankCons(a, [b]);
    DropBlankCons(b, []);
    assert [a] + [b] == [a, b];
  }

  /** When the last two tokens are not blank, the filter keeps them as the last two. */
  lemma DropBlankLastTwo(g: Group)
    requires |g| >= 2 && !IsBlankToken(g[|g| - 2]) && !IsBlankToken(g[|g| - 1])
    ensures var n := |g|;
      DropBlank(g) == DropBlank(g[..n - 2]) + [g[n - 2], g[n - 1]] &&
      Surfaces(DropBlank(g)) == Surfaces(DropBlank(g[..n - 2])) + [g[n - 2].surface, g[n - 1].surface]
  {
    var n := |g|;
    SplitLastTwo(g);
    DropBlankSnocPair(g[..n - 2], g[n - 2], g[n - 1]);
  }

  lemma DropBlankSnocPair(a: Group, x: Morpheme, y: Morpheme)
    requires !IsBlankToken(x) && !IsBlankToken(y)
    ensures DropBlank(a + [x, y]) == DropBlank(a) + [x, y]
    ensures Surfaces(DropBlank(a + [x, y])) == Surfaces(DropBlank(a)) + [x.surface, y.surface]
  {
    DropBlankPair(x, y);
    DropBlankAppend(a, [x, y]);
    SurfacesAppend(DropBlank(a), [x, y]);
  }

  lemma SplitLastTwo(g: Group)
    requires |g| >= 2
    ensures g == g[..|g| - 2] + [g[|g| - 2], g[|g| - 1]]
  {
  }

  /** When the first two tokens are not blank, the filter keeps them as the first two. */
  lemma DropBlankFirstTwo(g: Group)
    requires |g| >= 2 && !IsBlankToken(g[0]) && !IsBlankToken(g[1])
    ensures Surfaces(DropBlank(g)) == [g[0].surface, g[1].surface] + Surfaces(DropBlank(g[2..]))
  {
    var rest := DropBlank(g[2..]);
    assert DropBlank(g[1..]) == [g[1]] + rest by {
      assert g[1..][1..] == g[2..];
    }
    assert DropBlank(g) == [g[0], g[1]] + rest;
    SurfacesAppend([g[0], g[1]], rest);
  }

  lemma SurfacesAppend(a: Group, b: Group)
    ensures Surfaces(a + b) == Surfaces(a) + Surfaces(b)
  {
  }

  /** A reading as a template literal prints it; a missing one prints as "undefined". */
  function ReadingText(r: Option<string>): string {
    match r
    case Some(s) => s
    case None => "undefined"
  }

  /** `${t.surface_form}(${t.reading})`. */
  function KeyPart(m: Morpheme): string {
    m.surface + "(" + ReadingText(m.reading) + ")"
  }

  function KeyParts(g: Group): (r: seq<string>)
    ensures |r| == |g| && forall i :: 0 <= i < |g| ==> r[i] == KeyPart(g[i])
  {
    if g == [] then [] else [KeyPart(g[0])] + KeyParts(g[1..])
  }

  /** Lower-case hexadecimal digit, as JSON.stringify writes \u escapes. */
  function HexDigit(d: nat): char
    requires d < 16
  {
    if d < 10 then ('0' as int + d) as char else ('a' as int + d - 10) as char
  }

  /** The value of a lower-case hexadecimal digit, -1 for any other character. */
  function HexValue(c: char): (v: int)
    ensures -1 <= v < 16
    ensures forall d :: 0 <= d < 16 && c == HexDigit(d) ==> v == d
  {
    if '0' <= c <= '9' then c as int - '0' as int
    else if 'a' <= c <= 'f' then c as int - 'a' as int + 10
    else -1
  }

  /** JSON.stringify's escape of one character inside a string literal. */
  function JsonEscape(c: char): (r: string)
    ensures |r| >= 1
  {
    if c == '"' then "\\\""
    else if c == '\\' then "\\\\"
    else if c as int == 0x08 then "\\b"
    else if c as int == 0x0C then "\\f"
    else if c == '\n' then "\\n"
    else if c == '\r' then "\\r"
    else if c == '\t' then "\\t"
    else if (c as int) < 0x20 then "\\u00" + [HexDigit((c as int) / 16), HexDigit((c as int) % 16)]
    else [c]
  }

  function JsonEscapeAll(s: string): string {
    if s == [] then "" else JsonEscape(s[0]) + JsonEscapeAll(s[1..])
  }

  /** JSON.stringify of a string. */
  function JsonString(s: string): string {
    "\"" + JsonEscapeAll(s) + "\""
  }

  /** JSON.stringify of an array of strings; JSON.parse reads the same list back. */
  function JsonStringArray(xs: seq<string>): (r: string)
    ensures |r| >= 2 && r[0] == '[' && r[|r| - 1] == ']'
    ensures ParseStringArray(r) == Some(xs)
  {
    var items := seq(|xs|, i requires 0 <= i < |xs| => JsonString(xs[i]));
    var r := "[" + JsText.Join(items, ",") + "]";
    if xs == [] then
      assert r == "[]";
      r
    else
      ItemsRoundTrip(xs);
      assert r[1..] == JsText.Join(items, ",") + "]";
      assert r[1] == JsonString(xs[0])[0] == '"' by {
        if |items| >= 2 {
          JoinHead(items, ",");
        }
      }
      r
  }

  // ---------------------------------------------------------------------------
  // JSON.parse of a string array, as far as JSON.stringify writes one
  // ---------------------------------------------------------------------------

  /** The character a backslash escape stands for, and the text after the escape. */
  function Unescape(s: string): (r: Option<(char, string)>)
    ensures r.Some? ==> |r.value.1| < |s|
  {
    if s == [] then None
    else if s[0] == '"' then Some(('"', s[1..]))
    else if s[0] == '\\' then Some(('\\', s[1..]))
    else if s[0] == 'b' then Some((0x08 as char, s[1..]))
    else if s[0] == 'f' then Some((0x0C as char, s[1..]))
    else if s[0] == 'n' then Some(('\n', s[1..]))
    else if s[0] == 'r' then Some(('\r', s[1..]))
    else if s[0] == 't' then Some(('\t', s[1..]))
    else if |s| >= 5 && s[0] == 'u' && s[1] == '0' && s[2] == '0' && HexValue(s[3]) >= 0 && HexValue(s[4]) >= 0 then
      Some(((HexValue(s[3]) * 16 + HexValue(s[4])) as char, s[5..]))
    else None
  }

  /** The characters of a string literal up to its closing quote, and the text after it. */
  function ParseChars(s: string): (r: Option<(string, string)>)
    ensures r.Some? ==> |r.value.1| < |s|
    decreases |s|
  {
    if s == [] then None
    else if s[0] == '"' then Some(("", s[1..]))
    else if s[0] == '\\' then
      match Unescape(s[1..])
      case None => None
      case Some((c, rest)) =>
        match ParseChars(rest)
        case None => None
        case Some((x, after)) => Some(([c] + x, after))
    else
      match ParseChars(s[1..])
      case None => None
      case Some((x, after)) => Some(([s[0]] + x, after))
  }

  /** The string literals of a non-empty array after its '[', up to the closing ']' that ends the text. */
  function ParseItems(s: string): Option<seq<string>>
    decreases |s|
  {
    if s == [] || s[0] != '"' then None
    else
      match ParseChars(s[1..])
      case None => None
      case Some((x, rest)) =>
        if rest == "]" then Some([x])
        else if rest != [] && rest[0] == ',' then
          match ParseItems(rest[1..])
          case None => None
          case Some(xs) => Some([x] + xs)
        else None
  }

  function ParseStringArray(s: string): Option<seq<string>> {
    if s == "[]" then Some([])
    else if s != [] && s[0] == '[' then ParseItems(s[1..])
    else None
  }

  /** One escaped character is read back, whatever follows it. */
  lemma EscapeOne(c: char, t: string)
    ensures ParseChars(JsonEscape(c) + t) ==
      match ParseChars(t)
      case None => None
      case Some((x, after)) => Some(([c] + x, after))
  {
    var e := JsonEscape(c);
    var s := e + t;
    if |e| == 1 {
      assert e == [c] && s[0] == c && s[1..] == t;
    } else if |e| == 2 {
      assert s[0] == '\\' && s[1..] == [e[1]] + t && s[1..][1..] == t;
    } else {
      var d := c as int;
      assert e == "\\u00" + [HexDigit(d / 16), HexDigit(d % 16)];
      var u := s[1..];
      assert u == "u00" + [HexDigit(d / 16), HexDigit(d % 16)] + t;
      assert u[3] == HexDigit(d / 16) && u[4] == HexDigit(d % 16) && u[5..] == t;
      assert HexValue(u[3]) * 16 + HexValue(u[4]) == d;
    }
  }

  /** An escaped string before a closing quote is read back. */
  lemma {:induction false} CharsRoundTrip(x: string, rest: string)
    ensures ParseChars(JsonEscapeAll(x) + "\"" + rest) == Some((x, rest))
  {
    if x == [] {
      assert JsonEscapeAll(x) + "\"" + rest == "\"" + rest;
    } else {
      var t := JsonEscapeAll(x[1..]) + "\"" + rest;
      CharsRoundTrip(x[1..], rest);
      assert JsonEscapeAll(x) + "\"" + rest == JsonEscape(x[0]) + t;
      EscapeOne(x[0], t);
      assert [x[0]] + x[1..] == x;
    }
  }

  lemma JoinHead(parts: seq<string>, sep: string)
    requires |parts| >= 2
    ensures JsText.Join(parts, sep) == parts[0] + sep + JsText.Join(parts[1..], sep)
  {
  }

  /** The last item of an array is read back. */
  lemma LastItem(x: string)
    ensures ParseItems(JsonString(x) + "]") == Some([x])
  {
    var s := JsonString(x) + "]";
    assert s[1..] == JsonEscapeAll(x) + "\"" + "]";
    CharsRoundTrip(x, "]");
  }

  /** An item followed by a comma is read back, then the items after the comma. */
  lemma NextItem(x: string, tail: string)
    ensures ParseItems(JsonString(x) + "," + tail) ==
      match ParseItems(tail)
      case None => None
      case Some(ys) => Some([x] + ys)
  {
    var s := JsonString(x) + "," + tail;
    assert s[1..] == JsonEscapeAll(x) + "\"" + ("," + tail);
    CharsRoundTrip(x, "," + tail);
    assert ("," + tail)[1..] == tail;
  }

  /** The items of a non-empty array are read back from the text after its '['. */
  lemma {:induction false} ItemsRoundTrip(xs: seq<string>)
    requires xs != []
    ensures var items := seq(|xs|, i requires 0 <= i < |xs| => JsonString(xs[i]));
      ParseItems(JsText.Join(items, ",") + "]") == Some(xs)
  {
    var items := seq(|xs|, i requires 0 <= i < |xs| => JsonString(xs[i]));
    if |xs| == 1 {
      assert JsText.Join(items, ",") == JsonString(xs[0]);
      LastItem(xs[0]);
      assert xs == [xs[0]];
    } else {
      var more := seq(|xs[1..]|, i requires 0 <= i < |xs[1..]| => JsonString(xs[1..][i]));
      assert items[1..] == more;
      ItemsRoundTrip(xs[1..]);
      var tail := JsText.Join(more, ",") + "]";
      JoinHead(items, ",");
      assert JsText.Join(items, ",") + "]" == JsonString(xs[0]) + "," + tail;
      NextItem(xs[0], tail);
      assert [xs[0]] + xs[1..] == xs;
    }
  }

  /**
   * `toLexicalKey` of augment.js: JSON text of the surface(reading) list,
   * from which the list can be read back, so different lists get different keys.
   */
  function JsonKey(g: Group): (r: string)
    ensures ParseStringArray(r) == Some(KeyParts(g))
  {
    JsonStringArray(KeyParts(g))
  }

  /** Groups with different surface(reading) lists never share a JSON key. */
  lemma JsonKeyInjective(a: Group, b: Group)
    requires KeyParts(a) != KeyParts(b)
    ensures JsonKey(a) != JsonKey(b)
  {
  }

  /**
   * `toLexicalKey` of src/augment.ts: the surface(reading) list joined with
   * '|'; splitting at '|' gives the list back when no part holds a '|'.
   */
  function PipeKey(g: Group): (r: string)
    ensures g != [] && (forall k :: 0 <= k < |g| ==> '|' !in KeyPart(g[k])) ==> JsText.Split(r, '|') == KeyParts(g)
  {
    var parts := KeyParts(g);
    if g != [] && (forall k :: 0 <= k < |g| ==> '|' !in KeyPart(g[k])) then
      JsText.JoinSplit(parts, '|');
      JsText.Join(parts, "|")
    else JsText.Join(parts, "|")
  }
}
