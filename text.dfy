/**
 * Case-insensitive substring search, as Kotlin's `contains(query, ignoreCase = true)`,
 * with case folding restricted to the ASCII letters.
 */
module Text {

  /** ASCII lower-casing; every other character is its own fold. */
  function Fold(c: char): (f: char)
    ensures 'A' <= c <= 'Z' ==> 'a' <= f <= 'z' && f as int - c as int == 32
    ensures !('A' <= c <= 'Z') ==> f == c
  {
    if 'A' <= c <= 'Z' then (c as int + 32) as char else c
  }

  /** `query` occurs in `text` at position `i`, letter case ignored. */
  predicate MatchesAt(text: string, query: string, i: nat)
    requires i + |query| <= |text|
  {
    forall j :: 0 <= j < |query| ==> Fold(text[i + j]) == Fold(query[j])
  }

  /** `query` occurs in `text` at some position from `start` on, letter case ignored. */
  function ContainsFrom(text: string, query: string, start: nat): (r: bool)
    ensures r <==> exists i: nat :: start <= i && i + |query| <= |text| && MatchesAt(text, query, i)
    decreases |text| - start
  {
    if start + |query| > |text| then false
    else MatchesAt(text, query, start) || ContainsFrom(text, query, start + 1)
  }

  /** `query` occurs somewhere in `text`, letter case ignored. */
  function ContainsIgnoreCase(text: string, query: string): (r: bool)
    ensures r <==> exists i: nat :: i + |query| <= |text| && MatchesAt(text, query, i)
  {
    ContainsFrom(text, query, 0)
  }

  /** The empty query occurs in every text. */
  lemma EmptyQueryFound(text: string)
    ensures ContainsIgnoreCase(text, "")
  {
    assert MatchesAt(text, "", 0);
  }

  /** Matching ignores the case of ASCII letters on either side. */
  lemma CaseIgnored(text: string, query: string, text': string, query': string)
    requires |text'| == |text| && |query'| == |query|
    requires forall i :: 0 <= i < |text| ==> Fold(text'[i]) == Fold(text[i])
    requires forall i :: 0 <= i < |query| ==> Fold(query'[i]) == Fold(query[i])
    ensures ContainsIgnoreCase(text', query') == ContainsIgnoreCase(text, query)
  {
    if ContainsIgnoreCase(text, query) {
      var i: nat :| i + |query| <= |text| && MatchesAt(text, query, i);
      assert MatchesAt(text', query', i);
    }
    if ContainsIgnoreCase(text', query') {
      var i: nat :| i + |query'| <= |text'| && MatchesAt(text', query', i);
      assert MatchesAt(text, query, i);
    }
  }
}
