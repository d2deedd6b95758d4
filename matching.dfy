/** The keyword test of the scanner: every keyword must occur, ignoring
    ASCII case, in at least one of the texts (for a script: its file name
    or its extracted text). */
module Matching {
  import opened Text

  /** `key` is a case-insensitive substring of some text. */
  predicate KeywordFound(key: string, texts: seq<string>)
  {
    exists t :: t in texts && ContainsIgnoreCase(t, key)
  }

  /** The conjunction over keywords of the disjunction over texts. */
  predicate AllKeywordsFound(keywords: seq<string>, texts: seq<string>)
  {
    forall k :: k in keywords ==> KeywordFound(k, texts)
  }

  /** `np.all(flags)`: true for the empty list. */
  function AllTrue(flags: seq<bool>): (r: bool)
    ensures r <==> forall j :: 0 <= j < |flags| ==> flags[j]
  {
    if flags == [] then true else flags[0] && AllTrue(flags[1..])
  }

  /** `_test_matching_keywords(keywords, texts)`: one flag per keyword,
      found by scanning the texts until the first one that contains it. */
  method TestMatchingKeywords(keywords: seq<string>, texts: seq<string>) returns (result: bool)
    ensures result <==> AllKeywordsFound(keywords, texts)
    ensures result <==> forall k :: k in keywords ==>
                          exists t, i :: t in texts && MatchesAt(t, i, k)
    ensures keywords == [] ==> result
  {
    var matches: seq<bool> := [];
    for n := 0 to |keywords|
      invariant |matches| == n
      invariant forall j :: 0 <= j < n ==> (matches[j] <==> KeywordFound(keywords[j], texts))
    {
      var key := keywords[n];
      var keyMatch := false;
      var m := 0;
      while m < |texts|
        invariant 0 <= m <= |texts|
        invariant !keyMatch
        invariant forall u :: 0 <= u < m ==> !ContainsIgnoreCase(texts[u], key)
      {
        if ContainsIgnoreCase(texts[m], key) {
          keyMatch := true;
          break;
        }
        m := m + 1;
      }
      matches := matches + [keyMatch];
    }
    result := AllTrue(matches);
    assert result <==> forall j :: 0 <= j < |keywords| ==> KeywordFound(keywords[j], texts);
  }

  /** With texts `[filename, text]`, the test is: every keyword is in the
      file name or in the text. */
  lemma ScriptTest(keywords: seq<string>, filename: string, text: string)
    ensures AllKeywordsFound(keywords, [filename, text]) <==>
            forall k :: k in keywords ==> ContainsIgnoreCase(filename, k) || ContainsIgnoreCase(text, k)
  {
  }
}
