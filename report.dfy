/** The report pass of the scanner's `main`: visit the scripts in ascending
    file-name order, keep those whose raw file name and raw extracted text
    pass the keyword test, and emit three lines for each (a header with the
    highlighted file name, the highlighted text or a placeholder, a footer);
    emit one fixed line when nothing matched.

    The directory listing and the text extraction are inputs: a script is a
    file name with the text already extracted from it. */
module Report {
  import opened Text
  import opened Highlighting
  import opened Matching

  /** One discovered script: its file name and the text searched in it
      (its docstring, or the output of its `--help`). */
  datatype Script = Script(filename: string, text: string)

  const Spacing: string := "=================="
  const Placeholder: string := "No docstring available!"
  const NoResults: string := "No results found!"

  // ---------------------------------------------------------------------
  // `sorted(...)` of the script paths: ascending by file name

  predicate SortedByName(xs: seq<Script>)
  {
    forall i, j :: 0 <= i < j < |xs| ==> NameLe(xs[i].filename, xs[j].filename)
  }

  /** Inserts `x` before the first script whose name is not below its own. */
  function Insert(x: Script, xs: seq<Script>): (r: seq<Script>)
    requires SortedByName(xs)
    ensures SortedByName(r)
    ensures multiset(r) == multiset(xs) + multiset{x}
  {
    if xs == [] then [x]
    else if NameLe(x.filename, xs[0].filename) then
      PrependSorted(x, xs);
      [x] + xs
    else
      var rest := Insert(x, xs[1..]);
      assert xs == [xs[0]] + xs[1..];
      NameLeTotal(x.filename, xs[0].filename);
      HeadBelowRest(xs, x, rest);
      PrependSorted(xs[0], rest);
      [xs[0]] + rest
  }

  /** A script not above any script of a sorted list can go in front of it. */
  lemma PrependSorted(y: Script, xs: seq<Script>)
    requires SortedByName(xs)
    requires xs == [] || NameLe(y.filename, xs[0].filename)
    ensures SortedByName([y] + xs)
  {
    forall j | 0 < j < |xs| ensures NameLe(y.filename, xs[j].filename) {
      NameLeTransitive(y.filename, xs[0].filename, xs[j].filename);
    }
  }

  lemma HeadBelowRest(xs: seq<Script>, x: Script, rest: seq<Script>)
    requires xs != [] && SortedByName(xs)
    requires NameLe(xs[0].filename, x.filename)
    requires multiset(rest) == multiset(xs[1..]) + multiset{x}
    ensures rest == [] || NameLe(xs[0].filename, rest[0].filename)
  {
    if rest != [] && rest[0] != x {
      assert rest[0] in multiset(rest);
      assert rest[0] in multiset(xs[1..]);
      var j :| 0 <= j < |xs[1..]| && xs[1..][j] == rest[0];
      assert xs[j + 1] == rest[0];
    }
  }

  /** Python's `sorted` over the script paths (insertion sort, stable). */
  function SortByName(xs: seq<Script>): (r: seq<Script>)
    ensures SortedByName(r)
    ensures multiset(r) == multiset(xs)
  {
    if xs == [] then []
    else
      assert xs == [xs[0]] + xs[1..];
      Insert(xs[0], SortByName(xs[1..]))
  }

  // ---------------------------------------------------------------------
  // The filter and the three lines per match

  /** The keyword test on the RAW file name and RAW text (before the
      placeholder and before any highlighting). */
  predicate ScriptMatches(keywords: seq<string>, sc: Script)
  {
    AllKeywordsFound(keywords, [sc.filename, sc.text])
  }

  /** The scripts that pass the test, in the order they are visited. */
  function Matches(keywords: seq<string>, xs: seq<Script>): (r: seq<Script>)
    ensures forall sc :: sc in r <==> sc in xs && ScriptMatches(keywords, sc)
  {
    if xs == [] then []
    else
      var init := Matches(keywords, xs[..|xs| - 1]);
      var last := xs[|xs| - 1];
      assert xs == xs[..|xs| - 1] + [last];
      if ScriptMatches(keywords, last) then init + [last] else init
  }

  /** `search_text or 'No docstring available!'`. */
  function Shown(sc: Script): (r: string)
    ensures r != ""
    ensures sc.text != "" ==> r == sc.text
  {
    if sc.text == "" then Placeholder else sc.text
  }

  /** `print(SPACING, filename, SPACING)`. */
  function Header(name: string): (r: string)
    ensures |r| == |name| + 2 * |Spacing| + 2
  {
    Spacing + " " + name + " " + Spacing
  }

  /** `print(SPACING, "End of {}".format(filename), SPACING)`. */
  function Footer(name: string): (r: string)
    ensures |r| == |name| + 2 * |Spacing| + 9
  {
    Spacing + " End of " + name + " " + Spacing
  }

  /** The three lines printed for one matching script. */
  function Block(keywords: seq<string>, sc: Script): (r: seq<string>)
    ensures |r| == 3
  {
    var name := HighlightAll(sc.filename, keywords);
    [Header(name), HighlightAll(Shown(sc), keywords), Footer(name)]
  }

  function Blocks(keywords: seq<string>, ms: seq<Script>): (r: seq<string>)
    ensures |r| == 3 * |ms|
  {
    if ms == [] then [] else Blocks(keywords, ms[..|ms| - 1]) + Block(keywords, ms[|ms| - 1])
  }

  /** Everything `main` prints, one element per `print` call. */
  function ReportLines(keywords: seq<string>, scripts: seq<Script>): (r: seq<string>)
  {
    var ms := Matches(keywords, SortByName(scripts));
    if ms == [] then [NoResults] else Blocks(keywords, ms)
  }

  // ---------------------------------------------------------------------
  // The report loop of `main`

  /** `main` after the scripts have been listed and their texts extracted. */
  method Report(keywords: seq<string>, scripts: seq<Script>) returns (lines: seq<string>)
    ensures lines == ReportLines(keywords, scripts)
  {
    var sorted := SortByName(scripts);
    var matches: seq<string> := [];
    lines := [];
    var n := 0;
    while n < |sorted|
      invariant 0 <= n <= |sorted|
      invariant |matches| == |Matches(keywords, sorted[..n])|
      invariant lines == Blocks(keywords, Matches(keywords, sorted[..n]))
    {
      var sc := sorted[n];
      ghost var done := Matches(keywords, sorted[..n]);
      MatchesStep(keywords, sorted, n);
      var filename := sc.filename;
      var searchText := sc.text;
      var ok := TestMatchingKeywords(keywords, [filename, searchText]);
      if !ok {
        assert !ScriptMatches(keywords, sc);
        assert Matches(keywords, sorted[..n + 1]) == done;
        n := n + 1;
        continue;
      }
      assert Matches(keywords, sorted[..n + 1]) == done + [sc];
      matches := matches + [filename];
      searchText := if searchText == "" then Placeholder else searchText;
      filename, searchText := HighlightKeywords(filename, searchText, keywords);
      assert [Header(filename), searchText, Footer(filename)] == Block(keywords, sc);
      BlocksStep(keywords, done, sc);
      lines := lines + [Header(filename), searchText, Footer(filename)];
      n := n + 1;
    }
    assert sorted[..|sorted|] == sorted;
    if matches == [] {
      lines := lines + [NoResults];
    }
  }

  /** The inner loop over `kw_subs`: each keyword in turn is highlighted in
      the file name and in the text. */
  method HighlightKeywords(name: string, text: string, keywords: seq<string>)
    returns (name': string, text': string)
    ensures name' == HighlightAll(name, keywords) && text' == HighlightAll(text, keywords)
  {
    name', text' := name, text;
    for k := 0 to |keywords|
      invariant name' == HighlightAll(name, keywords[..k])
      invariant text' == HighlightAll(text, keywords[..k])
    {
      assert keywords[..k + 1][..k] == keywords[..k];
      name' := Highlight(name', keywords[k]);
      text' := Highlight(text', keywords[k]);
    }
    assert keywords[..|keywords|] == keywords;
  }

  lemma MatchesStep(keywords: seq<string>, xs: seq<Script>, n: nat)
    requires n < |xs|
    ensures Matches(keywords, xs[..n + 1]) ==
            Matches(keywords, xs[..n]) + (if ScriptMatches(keywords, xs[n]) then [xs[n]] else [])
  {
    assert xs[..n + 1][..n] == xs[..n];
  }

  lemma BlocksStep(keywords: seq<string>, ms: seq<Script>, sc: Script)
    ensures Blocks(keywords, ms + [sc]) == Blocks(keywords, ms) + Block(keywords, sc)
  {
  }

  // ---------------------------------------------------------------------
  // What the report promises

  /** Each passing script is kept as many times as it occurs in the input,
      every other script not at all. */
  lemma {:induction false} MatchesCount(keywords: seq<string>, xs: seq<Script>)
    ensures forall sc :: multiset(Matches(keywords, xs))[sc] ==
                         if ScriptMatches(keywords, sc) then multiset(xs)[sc] else 0
  {
    if xs != [] {
      var init := xs[..|xs| - 1];
      var last := xs[|xs| - 1];
      MatchesCount(keywords, init);
      assert xs == init + [last];
      assert multiset(xs) == multiset(init) + multiset{last};
    }
  }

  lemma {:induction false} MatchesSorted(keywords: seq<string>, xs: seq<Script>)
    requires SortedByName(xs)
    ensures SortedByName(Matches(keywords, xs))
  {
    if xs != [] {
      var init := xs[..|xs| - 1];
      MatchesSorted(keywords, init);
      var ms := Matches(keywords, init);
      forall j | 0 <= j < |ms| ensures NameLe(ms[j].filename, xs[|xs| - 1].filename) {
        assert ms[j] in init;
      }
    }
  }

  /** Block `j` of the output holds lines `3 * j` to `3 * j + 2`. */
  lemma {:induction false} BlocksLayout(keywords: seq<string>, ms: seq<Script>)
    ensures |Blocks(keywords, ms)| == 3 * |ms|
    ensures forall i :: 0 <= i < |Blocks(keywords, ms)| ==>
              Blocks(keywords, ms)[i] == Block(keywords, ms[i / 3])[i % 3]
  {
    if ms != [] {
      var init := ms[..|ms| - 1];
      BlocksLayout(keywords, init);
      forall i | 0 <= i < |Blocks(keywords, ms)|
        ensures Blocks(keywords, ms)[i] == Block(keywords, ms[i / 3])[i % 3]
      {
        if i < 3 * |init| {
          assert ms[i / 3] == init[i / 3];
        } else {
          assert i / 3 == |init|;
        }
      }
    }
  }

  /** The reported scripts: exactly those whose raw file name and raw text
      pass the test, each as many times as it was listed (once, for a
      directory listing), in ascending file-name order. */
  lemma ReportSelection(keywords: seq<string>, scripts: seq<Script>)
    ensures var ms := Matches(keywords, SortByName(scripts));
      && (forall sc :: sc in ms <==> sc in scripts && ScriptMatches(keywords, sc))
      && (forall sc :: multiset(ms)[sc] == if ScriptMatches(keywords, sc) then multiset(scripts)[sc] else 0)
      && SortedByName(ms)
  {
    var sorted := SortByName(scripts);
    assert forall sc :: sc in sorted <==> sc in scripts by {
      forall sc ensures sc in sorted <==> sc in scripts {
        assert sc in sorted <==> sc in multiset(sorted);
        assert sc in scripts <==> sc in multiset(scripts);
      }
    }
    MatchesSorted(keywords, sorted);
    MatchesCount(keywords, sorted);
  }

  /** Each reported script gives three lines: the highlighted header, the
      highlighted text (or placeholder), the highlighted footer. */
  lemma ReportLayout(keywords: seq<string>, scripts: seq<Script>)
    ensures var ms := Matches(keywords, SortByName(scripts));
      ms != [] ==>
        |ReportLines(keywords, scripts)| == 3 * |ms|
        && forall j :: 0 <= j < |ms| ==>
             var name := HighlightAll(ms[j].filename, keywords);
             && ReportLines(keywords, scripts)[3 * j] == Header(name)
             && ReportLines(keywords, scripts)[3 * j + 1] == HighlightAll(Shown(ms[j]), keywords)
             && ReportLines(keywords, scripts)[3 * j + 2] == Footer(name)
  {
    var ms := Matches(keywords, SortByName(scripts));
    BlocksLayout(keywords, ms);
    if ms != [] {
      forall j | 0 <= j < |ms|
        ensures (3 * j) / 3 == j && (3 * j + 1) / 3 == j && (3 * j + 2) / 3 == j
        ensures (3 * j) % 3 == 0 && (3 * j + 1) % 3 == 1 && (3 * j + 2) % 3 == 2
      {
      }
    }
  }

  /** The whole report: the selection and the layout together. */
  lemma ReportContents(keywords: seq<string>, scripts: seq<Script>)
    ensures var ms := Matches(keywords, SortByName(scripts));
      && (forall sc :: sc in ms <==> sc in scripts && ScriptMatches(keywords, sc))
      && (forall sc :: multiset(ms)[sc] == if ScriptMatches(keywords, sc) then multiset(scripts)[sc] else 0)
      && SortedByName(ms)
      && (ms != [] ==>
            |ReportLines(keywords, scripts)| == 3 * |ms|
            && forall j :: 0 <= j < |ms| ==>
                 var name := HighlightAll(ms[j].filename, keywords);
                 && ReportLines(keywords, scripts)[3 * j] == Header(name)
                 && ReportLines(keywords, scripts)[3 * j + 1] == HighlightAll(Shown(ms[j]), keywords)
                 && ReportLines(keywords, scripts)[3 * j + 2] == Footer(name))
  {
    ReportSelection(keywords, scripts);
    ReportLayout(keywords, scripts);
  }

  /** The fixed line `No results found!` is the whole output exactly when no
      script passes the keyword test. */
  lemma NoResultsIff(keywords: seq<string>, scripts: seq<Script>)
    ensures ReportLines(keywords, scripts) == [NoResults] <==>
            forall sc :: sc in scripts ==> !ScriptMatches(keywords, sc)
  {
    ReportSelection(keywords, scripts);
    ReportLayout(keywords, scripts);
    var ms := Matches(keywords, SortByName(scripts));
    if ms != [] {
      assert ms[0] in ms;
    }
  }

  /** When something matched, the line `No results found!` can only be the
      text of a reported script, never a header or a footer. */
  lemma NoResultsOnlyAsText(keywords: seq<string>, scripts: seq<Script>)
    requires exists sc :: sc in scripts && ScriptMatches(keywords, sc)
    ensures forall i :: (0 <= i < |ReportLines(keywords, scripts)| &&
                         ReportLines(keywords, scripts)[i] == NoResults) ==> i % 3 == 1
  {
    var ms := Matches(keywords, SortByName(scripts));
    var lines := ReportLines(keywords, scripts);
    NoResultsIff(keywords, scripts);
    assert ms != [];
    assert lines == Blocks(keywords, ms);
    BlocksLayout(keywords, ms);
    forall i | 0 <= i < |lines| && lines[i] == NoResults
      ensures i % 3 == 1
    {
      var b := Block(keywords, ms[i / 3]);
      var name := HighlightAll(ms[i / 3].filename, keywords);
      assert lines[i] == b[i % 3];
      assert b[0] == Header(name) && b[2] == Footer(name);
      FramesStartWithSpacing(name);
    }
  }

  /** Header and footer lines start with the spacing, never with `N`. */
  lemma FramesStartWithSpacing(name: string)
    ensures Header(name)[0] == Footer(name)[0] == '=' != NoResults[0]
  {
  }

  // ---------------------------------------------------------------------
  // Two concrete runs

  lemma OneScript(keywords: seq<string>, sc: Script)
    requires ScriptMatches(keywords, sc)
    ensures ReportLines(keywords, [sc]) == Block(keywords, sc)
  {
    var xs := [sc];
    assert xs[1..] == [];
    assert SortByName(xs[1..]) == [];
    assert SortByName(xs) == xs;
    assert xs[..0] == [];
    assert Matches(keywords, xs[..0]) == [];
    assert Matches(keywords, xs) == xs;
    assert Blocks(keywords, xs[..0]) == [];
    assert Blocks(keywords, xs) == Block(keywords, sc);
  }

  lemma LongNameMatches()
    ensures ScriptMatches(["scil_no_results_found"], Script("scil_no_results_found.py", NoResults))
  {
    var kw := "scil_no_results_found";
    var sc := Script("scil_no_results_found.py", NoResults);
    assert sc.filename[..|kw|] == kw;
    PrefixMatches(sc.filename, kw);
    ScriptTest([kw], sc.filename, sc.text);
  }

  /** A text shorter than the only keyword is printed as it is. */
  lemma ShortTextNotHighlighted(text: string, kw: string)
    requires |text| < |kw|
    ensures HighlightAll(text, [kw]) == text
  {
    TooLongNotContained(text, kw);
    HighlightAllUnchanged(text, [kw]);
  }

  /** A script whose docstring is literally `No results found!` prints that
      line as its text although there are results. */
  lemma NoResultsAsDocstring()
    ensures var lines := ReportLines(["scil_no_results_found"], [Script("scil_no_results_found.py", NoResults)]);
      |lines| == 3 && lines[1] == NoResults
  {
    var sc := Script("scil_no_results_found.py", NoResults);
    LongNameMatches();
    OneScript(["scil_no_results_found"], sc);
    ShortTextNotHighlighted(NoResults, "scil_no_results_found");
    assert Shown(sc) == NoResults;
  }

  lemma DocMatches()
    ensures ScriptMatches(["doc"], Script("doc.py", ""))
  {
    var sc := Script("doc.py", "");
    assert sc.filename[..3] == "doc";
    PrefixMatches(sc.filename, "doc");
    ScriptTest(["doc"], sc.filename, sc.text);
  }

  lemma PlaceholderChanged()
    ensures Highlight(Placeholder, "doc") != Placeholder
  {
    assert MatchesAt(Placeholder, 3, "doc") by {
      assert Placeholder[3..6] == "doc";
    }
    HighlightUnchangedIff(Placeholder, "doc");
  }

  /** The placeholder is put in before highlighting, so a keyword found in
      the file name is highlighted inside the placeholder too. */
  lemma PlaceholderHighlighted()
    ensures var lines := ReportLines(["doc"], [Script("doc.py", "")]);
      |lines| == 3 && lines[1] == Highlight(Placeholder, "doc") && lines[1] != Placeholder
  {
    var sc := Script("doc.py", "");
    DocMatches();
    OneScript(["doc"], sc);
    assert ["doc"][..0] == [];
    assert HighlightAll(Placeholder, ["doc"]) == Highlight(Placeholder, "doc");
    PlaceholderChanged();
  }
}
