/** The callback envelope of a visualization-query response,
    `google.visualization.Query.setResponse(<JSON>);`, and the regular
    expression `parseGViz` uses to take the JSON text out of it:
    the literal prefix, then a greedy `[\s\S]*` captured as group 1,
    then `)` and an optional `;`. */
module Envelope {
  import opened Wrappers

  /** The literal part of the pattern in front of the captured group. */
  const Prefix: string := "google.visualization.Query.setResponse("

  /** The prefix occurs in `text` starting at index `i`. */
  predicate PrefixAt(text: string, i: nat)
  {
    i + |Prefix| <= |text| && text[i..i + |Prefix|] == Prefix
  }

  /** One way the whole pattern can match: the prefix at `s` and the
      closing `)` at `e`, so that group 1 is `text[s + |Prefix|..e]`.
      The trailing `;?` can always match, so it constrains nothing. */
  ghost predicate MatchAt(text: string, s: nat, e: nat)
  {
    PrefixAt(text, s) && s + |Prefix| <= e < |text| && text[e] == ')'
  }

  /** The match a backtracking engine reports for a non-global `match`:
      the leftmost start, and at that start the longest group. */
  ghost predicate LeftmostGreedy(text: string, s: nat, e: nat)
  {
    MatchAt(text, s, e) &&
    (forall s': nat, e': nat :: MatchAt(text, s', e') ==> s <= s') &&
    (forall e': nat :: MatchAt(text, s, e') ==> e' <= e)
  }

  /** The first index at or after `from` where the prefix occurs. */
  function FindPrefix(text: string, from: nat): (r: Option<nat>)
    ensures r.Some? ==> from <= r.value && PrefixAt(text, r.value)
    ensures forall i: nat :: from <= i && (r.None? || i < r.value) ==> !PrefixAt(text, i)
    decreases |text| - from
  {
    if |text| < from + |Prefix| then None
    else if PrefixAt(text, from) then Some(from)
    else FindPrefix(text, from + 1)
  }

  /** The last index at or after `from` that holds `c`. */
  function LastIndexFrom(text: string, c: char, from: nat): (r: Option<nat>)
    ensures r.Some? ==> from <= r.value < |text| && text[r.value] == c
    ensures forall k :: from <= k < |text| && (r.None? || r.value < k) ==> text[k] != c
    decreases |text|
  {
    if |text| <= from then None
    else if text[|text| - 1] == c then Some(|text| - 1)
    else LastIndexFrom(text[..|text| - 1], c, from)
  }

  /** Group 1 of the envelope pattern, or None where `text.match` gives
      null (the page then fails on `match[1]`). A payload always sits in the
      text right after an occurrence of the prefix and right before a `)`;
      there is none when the text does not contain the prefix. */
  function ExtractPayload(text: string): (r: Option<string>)
    ensures r.Some? ==>
      exists s: nat :: PrefixAt(text, s) && s + |Prefix| + |r.value| < |text| &&
        text[s + |Prefix|..s + |Prefix| + |r.value|] == r.value && text[s + |Prefix| + |r.value|] == ')'
    ensures (forall s: nat :: !PrefixAt(text, s)) ==> r.None?
  {
    match FindPrefix(text, 0)
    case None => None
    case Some(s) =>
      match LastIndexFrom(text, ')', s + |Prefix|)
      case None => None
      case Some(e) =>
        assert PrefixAt(text, s) && e == s + |Prefix| + |text[s + |Prefix|..e]|;
        Some(text[s + |Prefix|..e])
  }

  /** Extraction agrees with the regular expression: it fails exactly when
      the pattern matches nowhere, and otherwise yields the group of the
      leftmost, greedy match — everything between the end of the first
      prefix and the last `)` after it. */
  lemma ExtractIsRegexMatch(text: string)
    ensures ExtractPayload(text).None? <==> forall s: nat, e: nat :: !MatchAt(text, s, e)
    ensures ExtractPayload(text).Some? ==>
      exists s: nat, e: nat :: LeftmostGreedy(text, s, e) && ExtractPayload(text).value == text[s + |Prefix|..e]
  {
    match FindPrefix(text, 0)
    case None =>
      assert forall s: nat, e: nat :: !MatchAt(text, s, e) by {
        forall s: nat, e: nat ensures !MatchAt(text, s, e) {
          assert !PrefixAt(text, s);
        }
      }
    case Some(s0) =>
      match LastIndexFrom(text, ')', s0 + |Prefix|)
      case None =>
        forall s: nat, e: nat ensures !MatchAt(text, s, e) {
          if PrefixAt(text, s) && s + |Prefix| <= e < |text| {
            assert s0 <= s;
            assert text[e] != ')';
          }
        }
      case Some(e0) =>
        assert MatchAt(text, s0, e0);
        forall s: nat, e: nat | MatchAt(text, s, e) ensures s0 <= s {
          assert PrefixAt(text, s);
        }
        assert LeftmostGreedy(text, s0, e0);
  }

  /** The envelope as the endpoint writes it around a JSON document. */
  function Wrap(json: string): string
  {
    Prefix + json + ");"
  }

  /** Only the last character of the prefix is an opening parenthesis, so an
      occurrence of the prefix cannot overlap the start of another one. */
  lemma OpenParenOnlyAtEnd(k: nat)
    requires k < |Prefix| - 1
    ensures Prefix[k] != '('
  {
  }

  /** In an enveloped text, the first occurrence of the prefix is the
      envelope's own when the preamble does not contain the prefix. */
  lemma FirstPrefixIsEnvelope(pre: string, json: string, post: string)
    requires forall i: nat :: !PrefixAt(pre, i)
    ensures FindPrefix(pre + Prefix + json + ")" + post, 0) == Some(|pre|)
  {
    var text := pre + Prefix + json + ")" + post;
    var s0 := |pre|;
    forall i: nat | i < s0 ensures !PrefixAt(text, i) {
      if i + |Prefix| <= s0 {
        assert text[i..i + |Prefix|] == pre[i..i + |Prefix|];
        assert !PrefixAt(pre, i);
      } else if i + |Prefix| <= |text| {
        var k := i + |Prefix| - 1 - s0;
        OpenParenOnlyAtEnd(k);
        assert text[i..i + |Prefix|][|Prefix| - 1] == Prefix[k] != Prefix[|Prefix| - 1];
      }
    }
    assert text[s0..s0 + |Prefix|] == Prefix;
    assert PrefixAt(text, s0);
    var found := FindPrefix(text, 0);
    assert found.Some? ==> !(found.value < s0) && !(s0 < found.value);
  }

  /** The last `)` from `from` on is the one in front of a tail without `)`. */
  lemma LastParenBeforeTail(head: string, post: string, from: nat)
    requires from <= |head|
    requires ')' !in post
    ensures LastIndexFrom(head + ")" + post, ')', from) == Some(|head|)
  {
    var text := head + ")" + post;
    assert text[|head|] == ')';
    forall k | |head| < k < |text| ensures text[k] != ')' {
      assert text[k] == post[k - |head| - 1];
    }
  }

  /** Extraction is the slice between the first prefix and the last `)`
      after it. */
  lemma PayloadBetween(text: string, s: nat, e: nat)
    requires FindPrefix(text, 0) == Some(s)
    requires LastIndexFrom(text, ')', s + |Prefix|) == Some(e)
    ensures s + |Prefix| <= e <= |text|
    ensures ExtractPayload(text) == Some(text[s + |Prefix|..e])
  {
  }

  /** Round trip: whatever JSON text is wrapped, extraction gives it back,
      parentheses inside it included, provided nothing in front of the
      envelope contains the prefix and nothing after the closing `)` is
      another `)`; the `;` after it is optional. */
  lemma {:induction false} WrapThenExtract(pre: string, json: string, post: string)
    requires forall i: nat :: !PrefixAt(pre, i)
    requires ')' !in post
    ensures ExtractPayload(pre + Prefix + json + ")" + post) == Some(json)
  {
    var head := pre + Prefix + json;
    var text := head + ")" + post;
    FirstPrefixIsEnvelope(pre, json, post);
    LastParenBeforeTail(head, post, |pre| + |Prefix|);
    PayloadBetween(text, |pre|, |head|);
    assert text[|pre| + |Prefix|..|head|] == json;
  }

  /** The envelope exactly as the endpoint sends it always yields its JSON. */
  lemma ExtractWrapped(json: string)
    ensures ExtractPayload(Wrap(json)) == Some(json)
  {
    assert Wrap(json) == "" + Prefix + json + ")" + ";";
    WrapThenExtract("", json, ";");
  }
}
