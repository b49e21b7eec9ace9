/** How the recipe handlers turn the ingredients text of a form into the stored list and
    back: a leading `[` selects JSON, anything else (and JSON that does not decode) is read
    as one ingredient per line; the edit form is prefilled with the list joined by newlines. */
module Ingredients {
  import opened Common
  import opened Text

  /** The JSON library reduced to what the handlers need of it. `loads(s)` is the list of
      strings `json.loads(s)` decodes, or None when it raises or decodes to something that
      is not a list of strings; `dumps(xs)` is the text `json.dumps(xs)` writes. */
  datatype JsonCodec = JsonCodec(loads: string -> Option<seq<string>>, dumps: seq<string> -> string)

  /** The comprehension `[i.strip() for i in pieces if i.strip()]`. What it promises is proved
      in `CleanElements` (every result is well formed), `CleanAppend` (order is kept) and
      `CleanFixed` (well-formed lists pass unchanged). */
  function Clean(pieces: seq<string>): (r: seq<string>)
    ensures |r| <= |pieces|
  {
    if |pieces| == 0 then []
    else
      var t := Trim(pieces[0]);
      (if t == [] then [] else [t]) + Clean(pieces[1..])
  }

  /** The line-split path: the lines of `raw`, each stripped, blank ones dropped. */
  function LineSplit(raw: string): seq<string>
  {
    Clean(SplitLines(raw))
  }

  /** The parse in `create` and `edit`: JSON when the stripped text starts with `[` and
      decodes, the line split otherwise. It never fails. */
  function ParseIngredients(raw: string, loads: string -> Option<seq<string>>): (r: seq<string>)
    ensures StrippedStartsWith(raw, '[') && loads(raw).Some? ==> r == loads(raw).value
    ensures !StrippedStartsWith(raw, '[') || loads(raw).None? ==> r == LineSplit(raw)
    ensures !StrippedStartsWith(raw, '[') || loads(raw).None? ==> forall x :: x in r ==> WellFormed(x)
  {
    LineSplitElements(raw);
    if StrippedStartsWith(raw, '[') then
      match loads(raw)
      case Some(l) => l
      case None => LineSplit(raw)
    else
      LineSplit(raw)
  }

  /** The text stored in `ingredients_json` by `create` and `edit`. */
  function Normalise(raw: string, codec: JsonCodec): string
  {
    codec.dumps(ParseIngredients(raw, codec.loads))
  }

  /** `json.loads(stored or '[]')`: the stored text, with an empty column read as `[]`. */
  function Decoded(stored: string, loads: string -> Option<seq<string>>): Option<seq<string>>
  {
    loads(if stored == [] then "[]" else stored)
  }

  /** The text the edit form is prefilled with: the stored list joined by newlines, or the
      stored text itself when it does not decode to a list of strings. */
  function Prefill(stored: string, loads: string -> Option<seq<string>>): string
  {
    match Decoded(stored, loads)
    case Some(l) => JoinLines(l)
    case None => stored
  }

  /** The list the recipe page shows: the decoded list, or nothing when decoding fails. */
  function Display(stored: string, loads: string -> Option<seq<string>>): (r: seq<string>)
    ensures Decoded(stored, loads).None? ==> r == []
  {
    match Decoded(stored, loads)
    case Some(l) => l
    case None => []
  }

  /** A well-formed ingredient: non-empty, no whitespace at either end, on one line. */
  predicate WellFormed(x: string)
  {
    x != [] && !IsSpace(x[0]) && !IsSpace(x[|x| - 1]) && NoLineBreak(x)
  }

  /** A well-formed ingredient is its own `strip()`. */
  lemma WellFormedIsStripped(x: string)
    requires WellFormed(x)
    ensures Trim(x) == x
  {
    TrimUnchanged(x);
  }

  lemma TrimKeepsOneLine(s: string)
    requires NoLineBreak(s)
    ensures NoLineBreak(Trim(s))
  {
    TrimSpec(s);
    var t := Trim(s);
    var i :| OccursAt(s, t, i);
    assert forall k :: 0 <= k < |t| ==> t[k] == s[i + k];
  }

  /** Every ingredient the line split produces is well formed. */
  lemma {:induction false} CleanElements(pieces: seq<string>)
    requires forall p :: p in pieces ==> NoLineBreak(p)
    ensures forall x :: x in Clean(pieces) ==> WellFormed(x)
    decreases |pieces|
  {
    if |pieces| > 0 {
      var p := pieces[0];
      TrimKeepsOneLine(p);
      CleanElements(pieces[1..]);
      var t := Trim(p);
      TrimSpec(p);
      assert Clean(pieces) == (if t == [] then [] else [t]) + Clean(pieces[1..]);
    }
  }

  lemma LineSplitElements(raw: string)
    ensures forall x :: x in LineSplit(raw) ==> WellFormed(x)
  {
    var pieces := SplitLines(raw);
    assert forall p :: p in pieces ==> NoLineBreak(p);
    CleanElements(pieces);
  }

  /** The line split keeps the order of the lines: cleaning distributes over concatenation. */
  lemma {:induction false} CleanAppend(a: seq<string>, b: seq<string>)
    ensures Clean(a + b) == Clean(a) + Clean(b)
    decreases |a|
  {
    if |a| > 0 {
      var t := Trim(a[0]);
      var head: seq<string> := if t == [] then [] else [t];
      assert (a + b)[0] == a[0];
      assert (a + b)[1..] == a[1..] + b;
      assert Clean(a + b) == head + Clean(a[1..] + b);
      CleanAppend(a[1..], b);
      assert Clean(a) == head + Clean(a[1..]);
    } else {
      assert a + b == b;
    }
  }

  /** The first ingredient starts with `[`. */
  predicate FirstStartsWithBracket(xs: seq<string>)
  {
    |xs| > 0 && |xs[0]| > 0 && xs[0][0] == '['
  }

  /** Cleaning keeps a well-formed first ingredient as it is. */
  lemma CleanKeepsWellFormed(x: string, rest: seq<string>)
    requires WellFormed(x)
    ensures Clean([x] + rest) == [x] + Clean(rest)
  {
    WellFormedIsStripped(x);
    assert ([x] + rest)[1..] == rest;
  }

  /** A list that is already well formed passes through the cleaning unchanged. */
  lemma {:induction false} CleanFixed(xs: seq<string>)
    requires forall k :: 0 <= k < |xs| ==> WellFormed(xs[k])
    ensures Clean(xs) == xs
    decreases |xs|
  {
    if |xs| > 0 {
      CleanKeepsWellFormed(xs[0], xs[1..]);
      CleanFixed(xs[1..]);
      assert xs == [xs[0]] + xs[1..];
    }
  }

  /** The join of well-formed ingredients has no whitespace at either end, so the
      bracket test sees the first character of the first ingredient. */
  lemma JoinedStartsAsFirst(xs: seq<string>)
    requires |xs| >= 1 && forall k :: 0 <= k < |xs| ==> xs[k] != []
    requires !IsSpace(xs[0][0]) && !IsSpace(xs[|xs| - 1][|xs[|xs| - 1]| - 1])
    ensures StrippedStartsWith(JoinLines(xs), '[') <==> xs[0][0] == '['
  {
    JoinLinesEnds(xs);
    TrimUnchanged(JoinLines(xs));
  }

  /** The line split of the join of well-formed ingredients is the list itself. */
  lemma JoinedLineSplit(xs: seq<string>)
    requires |xs| >= 1 && forall k :: 0 <= k < |xs| ==> WellFormed(xs[k])
    ensures LineSplit(JoinLines(xs)) == xs
  {
    SplitJoin(xs);
    CleanFixed(xs);
  }

  /** Round trip of the edit form: joining well-formed ingredients by newlines and parsing the
      text again gives the same list, unless the first ingredient starts with `[` and the joined
      text happens to decode as JSON. */
  lemma JoinThenParse(xs: seq<string>, loads: string -> Option<seq<string>>)
    requires forall k :: 0 <= k < |xs| ==> WellFormed(xs[k])
    requires !FirstStartsWithBracket(xs) || loads(JoinLines(xs)).None?
    ensures ParseIngredients(JoinLines(xs), loads) == xs
  {
    if |xs| == 0 {
      assert Trim("") == "";
      assert SplitLines("") == [""];
      assert Clean([""]) == [];
    } else {
      assert WellFormed(xs[0]) && WellFormed(xs[|xs| - 1]);
      JoinedStartsAsFirst(xs);
      JoinedLineSplit(xs);
    }
  }

  /** Opening the edit form and saving it unchanged stores the same text again, for a list of
      well-formed ingredients whose JSON text decodes back to the list. */
  lemma EditUnchangedStoresSame(xs: seq<string>, codec: JsonCodec)
    requires forall k :: 0 <= k < |xs| ==> WellFormed(xs[k])
    requires !FirstStartsWithBracket(xs) || codec.loads(JoinLines(xs)).None?
    requires codec.dumps(xs) != [] && codec.loads(codec.dumps(xs)) == Some(xs)
    ensures Normalise(Prefill(codec.dumps(xs), codec.loads), codec) == codec.dumps(xs)
  {
    assert Prefill(codec.dumps(xs), codec.loads) == JoinLines(xs);
    JoinThenParse(xs, codec.loads);
  }

  /** A single well-formed line that does not decode as JSON, such as `[invalid`, parses to
      itself as the only ingredient, whether or not it starts with `[`. */
  lemma ParseFallbackSingle(raw: string, loads: string -> Option<seq<string>>)
    requires WellFormed(raw) && loads(raw) == None
    ensures ParseIngredients(raw, loads) == [raw]
  {
    SplitLinesOne(raw);
    CleanFixed([raw]);
  }
}
