/** Animation-event text of the P9 scene tool, from apps/cli/p9_scene_tool/src/helpers/mod.rs:
  * a text such as `[position (0.0 5.0 -7.5)]` names a property, then optionally a parenthesised,
  * whitespace-separated list of values. Strings are sequences of Unicode scalar values. */
module P9Helpers {
  import opened Wrappers

  /** Rust's `char::is_whitespace`: the Unicode White_Space property. */
  predicate IsWhitespace(c: char) {
    ('\t' <= c <= '\r') || c == ' ' || c == '\U{0085}' || c == '\U{00A0}' || c == '\U{1680}'
    || ('\U{2000}' <= c <= '\U{200A}') || c == '\U{2028}' || c == '\U{2029}' || c == '\U{202F}'
    || c == '\U{205F}' || c == '\U{3000}'
  }

  predicate IsAsciiAlphanumeric(c: char) {
    ('a' <= c <= 'z') || ('A' <= c <= 'Z') || ('0' <= c <= '9')
  }

  /** An ASCII letter or digit, or one of the seven characters `._-[]()`. */
  predicate IsValidChar(c: char) {
    IsAsciiAlphanumeric(c) || c == '.' || c == '_' || c == '-' || c == '[' || c == ']' || c == '(' || c == ')'
  }

  predicate NoWhitespace(s: string) {
    forall i :: 0 <= i < |s| ==> !IsWhitespace(s[i])
  }

  /** `str::find` with `char::is_whitespace`: the index of the first whitespace character. */
  function FindWhitespace(s: string): (r: Option<nat>)
    ensures r.Some? ==> r.value < |s| && IsWhitespace(s[r.value])
    ensures r.Some? ==> forall j :: 0 <= j < r.value ==> !IsWhitespace(s[j])
    ensures r.None? <==> NoWhitespace(s)
  {
    if |s| == 0 then None
    else if IsWhitespace(s[0]) then Some(0)
    else match FindWhitespace(s[1..])
      case None => None
      case Some(w) => Some(w + 1)
  }

  /** The number of leading whitespace characters. */
  function LeadingWhitespace(s: string): (n: nat)
    ensures n <= |s| && (n == |s| || !IsWhitespace(s[n]))
    ensures forall i :: 0 <= i < n ==> IsWhitespace(s[i])
  {
    if |s| == 0 || !IsWhitespace(s[0]) then 0 else 1 + LeadingWhitespace(s[1..])
  }

  /** `str::trim_start`: drops the leading whitespace. */
  function TrimStart(s: string): string {
    s[LeadingWhitespace(s)..]
  }

  /** `str::split_whitespace`: the maximal runs of non-whitespace characters, in order. */
  function SplitWhitespace(s: string): (r: seq<string>)
    decreases |s|
  {
    var t := TrimStart(s);
    if |t| == 0 then []
    else match FindWhitespace(t)
      case None => [t]
      case Some(w) => [t[..w]] + SplitWhitespace(t[w..])
  }

  /** The non-whitespace characters of `s`, in order. */
  function NonWhitespace(s: string): string {
    if |s| == 0 then [] else (if IsWhitespace(s[0]) then [] else [s[0]]) + NonWhitespace(s[1..])
  }

  function Concat(words: seq<string>): string {
    if |words| == 0 then [] else words[0] + Concat(words[1..])
  }

  /** Words joined by single spaces. */
  function JoinSpaced(words: seq<string>): string {
    if |words| == 0 then []
    else if |words| == 1 then words[0]
    else words[0] + " " + JoinSpaced(words[1..])
  }

  /** `get_property_values`: a text that is at least three characters long and bracketed by
    * `[` `]` holds a property up to the first whitespace; after whitespace, the rest must be
    * parenthesised and holds the values. A bracketed text with no whitespace is a property with
    * no values. */
  function PropertyValues(text: string): (r: Option<(string, seq<string>)>)
    ensures r.Some? ==> 3 <= |text| && text[0] == '[' && text[|text| - 1] == ']'
  {
    if |text| < 3 || text[0] != '[' || text[|text| - 1] != ']' then None
    else
      var inner := text[1..|text| - 1];
      match FindWhitespace(inner)
      case None => Some((inner, []))
      case Some(w) =>
        ValuesOf(inner[..w], TrimStart(inner[w..]))
  }

  /** The values part of `get_property_values`: the text after the whitespace must be
    * parenthesised, and inside it the values are separated by whitespace. */
  function ValuesOf(property: string, rest: string): Option<(string, seq<string>)> {
    if |rest| == 0 || rest[0] != '(' || rest[|rest| - 1] != ')' then None
    else Some((property, SplitWhitespace(rest[1..|rest| - 1])))
  }

  /** `are_chars_valid`: non-empty, and every character valid. */
  predicate AreCharsValid(text: string) {
    |text| > 0 && forall i :: 0 <= i < |text| ==> IsValidChar(text[i])
  }

  /** `is_anim_event`: the text parses, and the property and every value have valid characters. */
  predicate IsAnimEvent(text: string) {
    match PropertyValues(text)
    case None => false
    case Some((property, values)) =>
      AreCharsValid(property) && forall k :: 0 <= k < |values| ==> AreCharsValid(values[k])
  }

  /** `FormattedAnimEvent`: the text with its parsed property and values. */
  datatype AnimEvent = AnimEvent(text: string, property: string, values: seq<string>)

  /** `FormattedAnimEvent::try_from_str`. */
  function TryFromStr(text: string): (r: Option<AnimEvent>)
    ensures r.Some? <==> IsAnimEvent(text)
    ensures r.Some? ==> r.value.text == text && PropertyValues(text) == Some((r.value.property, r.value.values))
    ensures r.Some? ==> AreCharsValid(r.value.property)
    ensures r.Some? ==> forall k :: 0 <= k < |r.value.values| ==> AreCharsValid(r.value.values[k])
  {
    if !IsAnimEvent(text) then None
    else
      var (property, values) := PropertyValues(text).value;
      Some(AnimEvent(text, property, values))
  }

  /** `try_parse_values::<N, T>`: slot `i` holds the parse of value `i`, or `None` when there is no
    * such value or it does not parse. `parse` stands for `T::from_str`. */
  method TryParseValues<T>(event: AnimEvent, n: nat, parse: string -> Option<T>) returns (slots: seq<Option<T>>)
    ensures |slots| == n
    ensures forall i :: 0 <= i < n ==> slots[i] == (if i < |event.values| then parse(event.values[i]) else None)
  {
    slots := [];
    var i := 0;
    while i < n
      invariant i <= n && |slots| == i
      invariant forall j :: 0 <= j < i ==> slots[j] == (if j < |event.values| then parse(event.values[j]) else None)
    {
      var p := if i < |event.values| then parse(event.values[i]) else None;
      slots := slots + [p];
      i := i + 1;
    }
  }

  // ---- Lemmas ----

  /** A string with valid characters holds no whitespace. */
  lemma ValidHasNoWhitespace(s: string)
    requires AreCharsValid(s)
    ensures NoWhitespace(s)
  {
  }

  /** The inverse of `FindWhitespace` across a concatenation. */
  lemma {:induction false} FindWhitespaceAppend(a: string, b: string)
    requires NoWhitespace(a)
    ensures FindWhitespace(a + b) == match FindWhitespace(b) case None => None case Some(w) => Some(|a| + w)
  {
    if |a| > 0 {
      assert (a + b)[1..] == a[1..] + b;
      FindWhitespaceAppend(a[1..], b);
    } else {
      assert a + b == b;
    }
  }

  predicate IsWord(w: string) {
    |w| > 0 && NoWhitespace(w)
  }

  /** `split_whitespace` yields non-empty words free of whitespace. */
  lemma {:induction false} SplitGivesWords(s: string)
    ensures forall k :: 0 <= k < |SplitWhitespace(s)| ==> IsWord(SplitWhitespace(s)[k])
    decreases |s|
  {
    var t := TrimStart(s);
    if |t| > 0 {
      match FindWhitespace(t)
      case None =>
      case Some(w) =>
        var r := SplitWhitespace(t[w..]);
        SplitGivesWords(t[w..]);
        assert IsWord(t[..w]);
        var all := [t[..w]] + r;
        assert SplitWhitespace(s) == all;
        forall k | 0 <= k < |all|
          ensures IsWord(all[k])
        {
          if k > 0 {
            assert all[k] == r[k - 1];
          }
        }
    }
  }

  /** `split_whitespace` keeps every non-whitespace character, in order. */
  lemma {:induction false} SplitKeepsCharacters(s: string)
    ensures Concat(SplitWhitespace(s)) == NonWhitespace(s)
    decreases |s|
  {
    var t := TrimStart(s);
    TrimDropsWhitespace(s);
    if |t| > 0 {
      match FindWhitespace(t)
      case None =>
        NoWhitespaceKept(t);
        assert Concat([t]) == t + Concat([]);
      case Some(w) =>
        assert t == t[..w] + t[w..];
        NonWhitespaceAppend(t[..w], t[w..]);
        NoWhitespaceKept(t[..w]);
        SplitKeepsCharacters(t[w..]);
        var r := SplitWhitespace(t[w..]);
        assert SplitWhitespace(s) == [t[..w]] + r;
        assert ([t[..w]] + r)[1..] == r;
    }
  }

  lemma {:induction false} TrimDropsWhitespace(s: string)
    ensures NonWhitespace(TrimStart(s)) == NonWhitespace(s)
    decreases |s|
  {
    if |s| > 0 && IsWhitespace(s[0]) {
      TrimDropsWhitespace(s[1..]);
    }
  }

  lemma {:induction false} NoWhitespaceKept(s: string)
    requires NoWhitespace(s)
    ensures NonWhitespace(s) == s
  {
    if |s| > 0 {
      NoWhitespaceKept(s[1..]);
    }
  }

  lemma {:induction false} NonWhitespaceAppend(a: string, b: string)
    ensures NonWhitespace(a + b) == NonWhitespace(a) + NonWhitespace(b)
  {
    if |a| > 0 {
      assert (a + b)[1..] == a[1..] + b;
      NonWhitespaceAppend(a[1..], b);
    } else {
      assert a + b == b;
    }
  }

  /** Joining words by single spaces and splitting again gives the words back. */
  lemma {:induction false} SplitJoinSpaced(words: seq<string>)
    requires forall k :: 0 <= k < |words| ==> |words[k]| > 0 && NoWhitespace(words[k])
    ensures SplitWhitespace(JoinSpaced(words)) == words
  {
    if |words| == 1 {
      assert FindWhitespace(words[0]).None?;
    } else if |words| > 1 {
      var rest := JoinSpaced(words[1..]);
      var s := words[0] + " " + rest;
      assert s == words[0] + (" " + rest);
      FindWhitespaceAppend(words[0], " " + rest);
      assert FindWhitespace(" " + rest) == Some(0);
      assert s[..|words[0]|] == words[0];
      assert s[|words[0]|..] == " " + rest;
      SplitJoinSpaced(words[1..]);
      JoinSpacedStart(words[1..]);
      assert TrimStart(" " + rest) == TrimStart(rest) == rest;
      assert SplitWhitespace(" " + rest) == SplitWhitespace(rest);
    }
  }

  /** A spaced join of non-empty, whitespace-free words starts with a non-whitespace character. */
  lemma JoinSpacedStart(words: seq<string>)
    requires forall k :: 0 <= k < |words| ==> |words[k]| > 0 && NoWhitespace(words[k])
    ensures |words| > 0 ==> |JoinSpaced(words)| > 0 && !IsWhitespace(JoinSpaced(words)[0])
  {
    if |words| > 1 {
      assert JoinSpaced(words)[0] == words[0][0];
    }
  }

  /** The text an event with values is written as: `[property (v0 v1 ...)]`. */
  function FormatEvent(property: string, values: seq<string>): string {
    "[" + property + " (" + JoinSpaced(values) + ")]"
  }

  /** `get_property_values` reads back what `FormatEvent` writes. */
  lemma FormatEventRoundTrip(property: string, values: seq<string>)
    requires NoWhitespace(property)
    requires forall k :: 0 <= k < |values| ==> |values[k]| > 0 && NoWhitespace(values[k])
    ensures PropertyValues(FormatEvent(property, values)) == Some((property, values))
  {
    var joined := JoinSpaced(values);
    var rest := "(" + joined + ")";
    assert FormatEvent(property, values) == "[" + property + (" " + rest) + "]";
    PropertyValuesAfter(property, " " + rest);
    TrimWhitespacePrefix(" ", rest);
    assert rest[1..|rest| - 1] == joined;
    SplitJoinSpaced(values);
  }

  /** With whitespace after the property, the values are read from the rest, less its leading
    * whitespace. */
  lemma PropertyValuesAfter(property: string, after: string)
    requires NoWhitespace(property) && |after| > 0 && IsWhitespace(after[0])
    ensures PropertyValues("[" + property + after + "]") == ValuesOf(property, TrimStart(after))
  {
    var text := "[" + property + after + "]";
    var inner := property + after;
    assert text[1..|text| - 1] == inner;
    FindWhitespaceAppend(property, after);
    assert FindWhitespace(after) == Some(0);
    assert inner[..|property|] == property;
    assert inner[|property|..] == after;
  }

  /** Without whitespace inside the brackets, the whole inside is the property and there are no
    * values. */
  lemma PropertyOnly(property: string)
    requires NoWhitespace(property) && |property| > 0
    ensures PropertyValues("[" + property + "]") == Some((property, []))
  {
    var text := "[" + property + "]";
    assert text[1..|text| - 1] == property;
  }

  /** A text that is not bracketed, or shorter than three characters, has no property. */
  lemma NotBracketed(text: string)
    requires |text| < 3 || text[0] != '[' || text[|text| - 1] != ']'
    ensures PropertyValues(text).None? && !IsAnimEvent(text)
  {
  }

  /** After the property and whitespace, text that is not parenthesised has no values. */
  lemma ValuesNeedParentheses(property: string, sep: string, rest: string)
    requires NoWhitespace(property) && |sep| > 0 && forall i :: 0 <= i < |sep| ==> IsWhitespace(sep[i])
    requires |rest| == 0 || !IsWhitespace(rest[0])
    requires |rest| == 0 || rest[0] != '(' || rest[|rest| - 1] != ')'
    ensures PropertyValues("[" + property + sep + rest + "]").None?
  {
    assert "[" + property + sep + rest + "]" == "[" + property + (sep + rest) + "]";
    PropertyValuesAfter(property, sep + rest);
    TrimWhitespacePrefix(sep, rest);
  }

  lemma {:induction false} TrimWhitespacePrefix(sep: string, rest: string)
    requires forall i :: 0 <= i < |sep| ==> IsWhitespace(sep[i])
    requires |rest| == 0 || !IsWhitespace(rest[0])
    ensures TrimStart(sep + rest) == rest
  {
    if |sep| > 0 {
      assert (sep + rest)[1..] == sep[1..] + rest;
      TrimWhitespacePrefix(sep[1..], rest);
    } else {
      assert sep + rest == rest;
    }
  }

  /** A well-formed event with valid characters is an animation event, and only then. */
  lemma FormattedIsAnimEvent(property: string, values: seq<string>)
    requires NoWhitespace(property)
    requires forall k :: 0 <= k < |values| ==> |values[k]| > 0 && NoWhitespace(values[k])
    ensures IsAnimEvent(FormatEvent(property, values))
      <==> AreCharsValid(property) && forall k :: 0 <= k < |values| ==> AreCharsValid(values[k])
  {
    FormatEventRoundTrip(property, values);
  }

  /** The cases of the source's tests: text that is empty, or too short, is not an event. */
  lemma ShortExamples()
    ensures !IsAnimEvent("") && !IsAnimEvent("[]") && PropertyValues("[").None?
  {
    NotBracketed("");
    NotBracketed("[]");
    NotBracketed("[");
  }

  /** A value that is not parenthesised makes the text not an event. */
  lemma UnparenthesisedExample(text: string)
    requires text == "[shot CrowdCvStage04.shot]"
    ensures !IsAnimEvent(text)
  {
    var property, rest := "shot", "CrowdCvStage04.shot";
    assert text == "[" + property + " " + rest + "]";
    ValidChars(property);
    ValuesNeedParentheses(property, " ", rest);
  }

  /** Valid characters, checked one by one. */
  predicate AllValid(s: string) {
    |s| == 0 || (IsValidChar(s[0]) && AllValid(s[1..]))
  }

  lemma {:induction false} ValidChars(s: string)
    requires |s| > 0 && AllValid(s)
    ensures AreCharsValid(s) && NoWhitespace(s)
  {
    if |s| > 1 {
      ValidChars(s[1..]);
      assert forall i :: 1 <= i < |s| ==> s[i] == s[1..][i - 1];
    }
  }

  /** Cases of the source's character tests. */
  lemma CharsValidExamples()
    ensures !AreCharsValid("") && !AreCharsValid(" ")
    ensures AreCharsValid("420") && AreCharsValid("shot")
  {
    assert !IsValidChar(" "[0]);
  }
}
