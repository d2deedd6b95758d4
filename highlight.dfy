/** The highlighting step of the keyword scanner.

    For each keyword the scanner compiles the literal, case-insensitive
    pattern `(<escaped keyword>)` and calls `sub` with the template
    `RED + BOLD + \1 + END_COLOR`.  `Scan` is that regular-expression scan:
    it cuts the string into kept characters and wrapped matches, leftmost
    first and without overlap; `Render` writes the wrapped pieces between
    the colour markers.  `HighlightAll` applies the substitutions one
    keyword after the other, each on the output of the previous one. */
module Highlighting {
  import opened Text

  /** ECMA-48 SGR sequences: foreground red, bold, reset. */
  const Esc: char := '\U{1B}'
  const Red: string := "\U{1B}[31m"
  const Bold: string := "\U{1B}[1m"
  const EndColor: string := "\U{1B}[0m"
  /** What the substitution template writes before a match. */
  const Open: string := Red + Bold

  /** One piece of a scanned string: a character outside every match, or
      the original text of a match (with its own casing). */
  datatype Piece = Keep(c: char) | Wrap(text: string)

  /** The leftmost, non-overlapping matches of the literal pattern `kw`,
      ignoring ASCII case.  For the empty pattern, Python's `re.sub` finds
      an empty match before every character and one at the end. */
  function Scan(s: string, kw: string): (r: seq<Piece>)
    decreases |s|
  {
    if kw == "" then
      if s == [] then [Wrap("")] else [Wrap(""), Keep(s[0])] + Scan(s[1..], kw)
    else if MatchesAt(s, 0, kw) then [Wrap(s[..|kw|])] + Scan(s[|kw|..], kw)
    else if s == [] then []
    else [Keep(s[0])] + Scan(s[1..], kw)
  }

  /** The substituted string: each match becomes `Open + match + EndColor`. */
  function Render(ps: seq<Piece>): (r: string)
  {
    if ps == [] then []
    else
      match ps[0]
      case Keep(c) => [c] + Render(ps[1..])
      case Wrap(t) => Open + t + EndColor + Render(ps[1..])
  }

  /** The string the pieces were cut from: the markers deleted. */
  function Source(ps: seq<Piece>): (r: string)
  {
    if ps == [] then []
    else
      match ps[0]
      case Keep(c) => [c] + Source(ps[1..])
      case Wrap(t) => t + Source(ps[1..])
  }

  /** Number of wrapped matches. */
  function Wraps(ps: seq<Piece>): (n: nat)
  {
    if ps == [] then 0 else (if ps[0].Wrap? then 1 else 0) + Wraps(ps[1..])
  }

  /** `regex.sub(new_key, s)` for the pattern compiled from `kw`. */
  function Highlight(s: string, kw: string): (r: string)
    ensures |r| >= |s|
  {
    ScanSource(s, kw);
    RenderLength(Scan(s, kw));
    Render(Scan(s, kw))
  }

  /** The inner loop of the report: one substitution per keyword, in the
      order the keywords were given, each applied to the previous result. */
  function HighlightAll(s: string, kws: seq<string>): (r: string)
    ensures |r| >= |s|
  {
    if kws == [] then s else Highlight(HighlightAll(s, kws[..|kws| - 1]), kws[|kws| - 1])
  }

  // ---------------------------------------------------------------------
  // What a scan is, independently of how Scan computes it

  /** `ps` cuts `s` into pieces such that every wrapped piece is the
      original text of a case-insensitive match of `kw`, no match starts at
      a kept character, and the pieces cover `s` in order.  For a non-empty
      keyword this pins down the leftmost non-overlapping scan. */
  ghost predicate Segments(ps: seq<Piece>, s: string, kw: string)
    decreases ps
  {
    if ps == [] then s == []
    else
      match ps[0]
      case Keep(c) =>
        s != [] && c == s[0] && !MatchesAt(s, 0, kw) && Segments(ps[1..], s[1..], kw)
      case Wrap(t) =>
        MatchesAt(s, 0, kw) && t == s[..|kw|] && Segments(ps[1..], s[|kw|..], kw)
  }

  /** The scan of a non-empty keyword meets that description. */
  lemma {:induction false} ScanSegments(s: string, kw: string)
    requires kw != ""
    ensures Segments(Scan(s, kw), s, kw)
    decreases |s|
  {
    var ps := Scan(s, kw);
    if MatchesAt(s, 0, kw) {
      ScanSegments(s[|kw|..], kw);
      assert ps[1..] == Scan(s[|kw|..], kw);
    } else if s != [] {
      ScanSegments(s[1..], kw);
      assert ps[1..] == Scan(s[1..], kw);
    }
  }

  /** ... and only the scan does: the description has one solution. */
  lemma {:induction false} SegmentsUnique(ps: seq<Piece>, qs: seq<Piece>, s: string, kw: string)
    requires kw != ""
    requires Segments(ps, s, kw) && Segments(qs, s, kw)
    ensures ps == qs
    decreases ps
  {
    if ps != [] {
      assert qs != [];
      match ps[0]
      case Keep(c) =>
        assert qs[0] == Keep(c);
        SegmentsUnique(ps[1..], qs[1..], s[1..], kw);
        assert ps == [ps[0]] + ps[1..] && qs == [qs[0]] + qs[1..];
      case Wrap(t) =>
        assert qs[0] == Wrap(t);
        SegmentsUnique(ps[1..], qs[1..], s[|kw|..], kw);
        assert ps == [ps[0]] + ps[1..] && qs == [qs[0]] + qs[1..];
    }
  }

  /** Deleting the markers gives back the input: text outside the matches is
      untouched and every match keeps its original casing (any keyword,
      the empty one included). */
  lemma {:induction false} ScanSource(s: string, kw: string)
    ensures Source(Scan(s, kw)) == s
    decreases |s|
  {
    var ps := Scan(s, kw);
    if kw == "" {
      if s != [] {
        ScanSource(s[1..], kw);
        assert ps[1..][1..] == Scan(s[1..], kw);
        assert s == [s[0]] + s[1..];
      }
    } else if MatchesAt(s, 0, kw) {
      ScanSource(s[|kw|..], kw);
      assert ps[1..] == Scan(s[|kw|..], kw);
      assert s == s[..|kw|] + s[|kw|..];
    } else if s != [] {
      ScanSource(s[1..], kw);
      assert ps[1..] == Scan(s[1..], kw);
      assert s == [s[0]] + s[1..];
    }
  }

  /** Every wrapped segment equals the keyword up to ASCII case. */
  lemma {:induction false} ScanWrapsMatchKeyword(s: string, kw: string)
    ensures forall p :: p in Scan(s, kw) && p.Wrap? ==> |p.text| == |kw| && EqualIgnoreCase(p.text, kw)
    decreases |s|
  {
    if kw == "" {
      if s != [] { ScanWrapsMatchKeyword(s[1..], kw); }
    } else if MatchesAt(s, 0, kw) {
      ScanWrapsMatchKeyword(s[|kw|..], kw);
    } else if s != [] {
      ScanWrapsMatchKeyword(s[1..], kw);
    }
  }

  // ---------------------------------------------------------------------
  // Length, change and the markers in the rendered string

  lemma {:induction false} RenderLength(ps: seq<Piece>)
    ensures |Render(ps)| == |Source(ps)| + Wraps(ps) * |Open + EndColor|
  {
    if ps != [] { RenderLength(ps[1..]); }
  }

  /** If no match starts at any position, the scan keeps every character. */
  lemma {:induction false} ScanNoMatch(s: string, kw: string)
    requires kw != ""
    requires forall i :: !MatchesAt(s, i, kw)
    ensures Wraps(Scan(s, kw)) == 0
    decreases |s|
  {
    if s != [] {
      assert forall i :: MatchesAt(s[1..], i, kw) ==> MatchesAt(s, i + 1, kw) by {
        forall i | MatchesAt(s[1..], i, kw) ensures MatchesAt(s, i + 1, kw) {
          assert s[1..][i..i + |kw|] == s[i + 1..i + 1 + |kw|];
        }
      }
      ScanNoMatch(s[1..], kw);
    }
  }

  /** If a match starts somewhere, the scan wraps at least one segment. */
  lemma {:induction false} ScanFindsMatch(s: string, kw: string, i: int)
    requires kw != ""
    requires MatchesAt(s, i, kw)
    ensures Wraps(Scan(s, kw)) > 0
    decreases |s|
  {
    if !MatchesAt(s, 0, kw) {
      assert i > 0 && s != [];
      assert s[1..][i - 1..i - 1 + |kw|] == s[i..i + |kw|];
      ScanFindsMatch(s[1..], kw, i - 1);
    }
  }

  /** One substitution step leaves the string unchanged exactly when the
      keyword does not occur in it (the test `key.lower() in text.lower()`
      uses).  The empty keyword occurs everywhere and always adds markers. */
  lemma HighlightUnchangedIff(s: string, kw: string)
    ensures Highlight(s, kw) == s <==> !ContainsIgnoreCase(s, kw)
  {
    if kw == "" {
      EmptyKeyAlwaysContained(s);
      HighlightEmptyKeyword(s);
      MarkersLength();
    } else if ContainsIgnoreCase(s, kw) {
      var i :| MatchesAt(s, i, kw);
      HighlightGrows(s, kw, i);
    } else {
      ScanNoMatch(s, kw);
      NoWrapsRenderSource(Scan(s, kw));
      ScanSource(s, kw);
    }
  }

  lemma HighlightGrows(s: string, kw: string, i: int)
    requires kw != ""
    requires MatchesAt(s, i, kw)
    ensures |Highlight(s, kw)| > |s|
  {
    var ps := Scan(s, kw);
    ScanFindsMatch(s, kw, i);
    RenderLength(ps);
    ScanSource(s, kw);
    MarkersLength();
    var w := Wraps(ps);
    assert |Render(ps)| == |s| + w * 13;
  }

  lemma MarkersLength()
    ensures |Open| == 9 && |EndColor| == 4 && |Open + EndColor| == 13
    ensures Open[0] == Esc && EndColor[0] == Esc && Open[2] == '3' && EndColor[2] == '0'
  {
  }

  lemma {:induction false} NoWrapsRenderSource(ps: seq<Piece>)
    requires Wraps(ps) == 0
    ensures Render(ps) == Source(ps)
  {
    if ps != [] { NoWrapsRenderSource(ps[1..]); }
  }

  /** The empty keyword wraps an empty match before each character of `s`
      and one at its end: `|s| + 1` marker pairs in all. */
  lemma {:induction false} HighlightEmptyKeyword(s: string)
    ensures |Scan(s, "")| == 2 * |s| + 1
    ensures forall i :: 0 <= i < |s| ==>
              Scan(s, "")[2 * i] == Wrap("") && Scan(s, "")[2 * i + 1] == Keep(s[i])
    ensures Scan(s, "")[2 * |s|] == Wrap("")
    ensures Wraps(Scan(s, "")) == |s| + 1
    ensures |Highlight(s, "")| == |s| + (|s| + 1) * |Open + EndColor|
    decreases |s|
  {
    RenderLength(Scan(s, ""));
    ScanSource(s, "");
    if s != [] {
      var ps := Scan(s, "");
      var rest := Scan(s[1..], "");
      HighlightEmptyKeyword(s[1..]);
      assert ps == [Wrap(""), Keep(s[0])] + rest;
      assert ps[1..][1..] == rest;
      forall i | 1 <= i < |s|
        ensures ps[2 * i] == Wrap("") && ps[2 * i + 1] == Keep(s[i])
      {
        assert ps[2 * i] == rest[2 * (i - 1)] && ps[2 * i + 1] == rest[2 * (i - 1) + 1];
        assert s[i] == s[1..][i - 1];
      }
      assert ps[2 * |s|] == rest[2 * |s[1..]|];
    }
  }

  /** No escape character in `s`. */
  predicate EscapeFree(s: string)
  {
    forall i :: 0 <= i < |s| ==> s[i] != Esc
  }

  /** Deletes every `Open` and `EndColor` marker from a rendered string. */
  function StripMarkers(r: string): (s: string)
    decreases |r|
  {
    if |Open| <= |r| && r[..|Open|] == Open then StripMarkers(r[|Open|..])
    else if |EndColor| <= |r| && r[..|EndColor|] == EndColor then StripMarkers(r[|EndColor|..])
    else if r == [] then []
    else [r[0]] + StripMarkers(r[1..])
  }

  /** A string that does not start with an escape character starts no marker. */
  lemma StripPlain(r: string)
    requires r != [] && r[0] != Esc
    ensures StripMarkers(r) == [r[0]] + StripMarkers(r[1..])
  {
    MarkersLength();
    if |Open| <= |r| { assert r[..|Open|][0] != Open[0]; }
    if |EndColor| <= |r| { assert r[..|EndColor|][0] != EndColor[0]; }
  }

  lemma {:induction false} StripEscapeFreePrefix(t: string, rest: string)
    requires EscapeFree(t)
    ensures StripMarkers(t + rest) == t + StripMarkers(rest)
    decreases |t|
  {
    if t != [] {
      var r := t + rest;
      StripPlain(r);
      assert r[1..] == t[1..] + rest;
      StripEscapeFreePrefix(t[1..], rest);
      calc {
        StripMarkers(r);
        [r[0]] + StripMarkers(t[1..] + rest);
        [t[0]] + (t[1..] + StripMarkers(rest));
        { assert t == [t[0]] + t[1..]; }
        t + StripMarkers(rest);
      }
    } else {
      assert t + rest == rest;
    }
  }

  lemma StripMarkedPiece(t: string, rest: string)
    requires EscapeFree(t)
    ensures StripMarkers(Open + t + EndColor + rest) == t + StripMarkers(rest)
  {
    MarkersLength();
    var r := Open + t + EndColor + rest;
    var tail := EndColor + rest;
    assert r[..|Open|] == Open;
    assert r[|Open|..] == t + tail;
    assert StripMarkers(r) == StripMarkers(t + tail);
    StripEscapeFreePrefix(t, tail);
    if |Open| <= |tail| { assert tail[..|Open|][2] != Open[2]; }
    assert tail[..|EndColor|] == EndColor;
    assert tail[|EndColor|..] == rest;
    assert StripMarkers(tail) == StripMarkers(rest);
  }

  /** On a string without escape characters, deleting the inserted marker
      pairs from one substitution step gives back the input exactly. */
  lemma HighlightStrip(s: string, kw: string)
    requires EscapeFree(s)
    ensures StripMarkers(Highlight(s, kw)) == s
  {
    if kw == "" {
      HighlightStripEmpty(s);
    } else {
      HighlightStripKeyword(s, kw);
    }
  }

  lemma {:induction false} HighlightStripEmpty(s: string)
    requires EscapeFree(s)
    ensures StripMarkers(Highlight(s, "")) == s
    decreases |s|
  {
    if s == [] {
      StripMarkedPiece("", "");
    } else {
      HighlightStripEmpty(s[1..]);
      var ps := Scan(s, "");
      var tail := Render(Scan(s[1..], ""));
      assert ps[1..] == [Keep(s[0])] + Scan(s[1..], "");
      assert ps[1..][1..] == Scan(s[1..], "");
      assert Render(ps[1..]) == [s[0]] + tail;
      assert Highlight(s, "") == Open + "" + EndColor + ([s[0]] + tail);
      StripMarkedPiece("", [s[0]] + tail);
      StripEscapeFreePrefix([s[0]], tail);
      assert s == [s[0]] + s[1..];
    }
  }

  lemma {:induction false} HighlightStripKeyword(s: string, kw: string)
    requires kw != ""
    requires EscapeFree(s)
    ensures StripMarkers(Highlight(s, kw)) == s
    decreases |s|
  {
    if MatchesAt(s, 0, kw) {
      HighlightStripKeyword(s[|kw|..], kw);
      assert Scan(s, kw)[1..] == Scan(s[|kw|..], kw);
      StripMarkedPiece(s[..|kw|], Render(Scan(s[|kw|..], kw)));
      assert s == s[..|kw|] + s[|kw|..];
    } else if s != [] {
      HighlightStripKeyword(s[1..], kw);
      assert Scan(s, kw)[1..] == Scan(s[1..], kw);
      StripEscapeFreePrefix([s[0]], Render(Scan(s[1..], kw)));
      assert s == [s[0]] + s[1..];
    }
  }

  // ---------------------------------------------------------------------
  // The fold over the keywords

  /** Keywords that are all absent from `s` leave it as it is. */
  lemma {:induction false} HighlightAllUnchanged(s: string, kws: seq<string>)
    requires forall k :: k in kws ==> !ContainsIgnoreCase(s, k)
    ensures HighlightAll(s, kws) == s
  {
    if kws != [] {
      var init := kws[..|kws| - 1];
      forall k | k in init ensures k != "" && !ContainsIgnoreCase(s, k) {
        var j :| 0 <= j < |init| && init[j] == k;
        assert kws[j] == k;
        assert k in kws;
      }
      assert kws[|kws| - 1] in kws;
      HighlightAllUnchanged(s, kws[..|kws| - 1]);
      HighlightUnchangedIff(s, kws[|kws| - 1]);
    }
  }

  lemma HighlightOnlyMatch()
    ensures Highlight("a", "a") == Open + "a" + EndColor
  {
  }

  lemma MIsNotInA()
    ensures !ContainsIgnoreCase("a", "m")
  {
  }

  /** The fold depends on the keyword order: the markers written for one
      keyword can be matched by a later one ("m" occurs in `Red`). */
  lemma HighlightAllOrderMatters()
    ensures HighlightAll("a", ["a", "m"]) != HighlightAll("a", ["m", "a"])
  {
    var once := Open + "a" + EndColor;
    HighlightOnlyMatch();
    MIsNotInA();
    HighlightUnchangedIff("a", "m");
    assert once[4..5] == "m";
    assert MatchesAt(once, 4, "m");
    HighlightUnchangedIff(once, "m");
    assert ["a", "m"][..1] == ["a"] && ["m", "a"][..1] == ["m"];
    assert HighlightAll("a", ["a"]) == once;
    assert HighlightAll("a", ["m"]) == "a";
  }

  /** A marker written for an earlier keyword can split an occurrence of a
      later one: in "ab" the keyword "ab" occurs, but after "a" has been
      wrapped it no longer does, so "ab" is never wrapped. */
  lemma LaterKeywordSplit()
    ensures ContainsIgnoreCase("ab", "ab")
    ensures HighlightAll("ab", ["a", "ab"]) == Open + "a" + EndColor + "b"
    ensures !ContainsIgnoreCase(Open + "a" + EndColor + "b", "ab")
  {
    PrefixMatches("ab", "ab");
    var once := Open + "a" + EndColor + "b";
    assert Highlight("ab", "a") == once by {
      PrefixMatches("ab", "a");
      assert "ab"[1..] == "b";
      assert !MatchesAt("b", 0, "a") by {
        LowerAt("b"[0..1], 0);
        LowerAt("a", 0);
      }
      assert Scan("b", "a") == [Keep('b')];
      assert Scan("ab", "a") == [Wrap("a"), Keep('b')];
    }
    MarkersLength();
    assert |once| == 15;
    forall i | 0 <= i && i + 2 <= |once|
      ensures !MatchesAt(once, i, "ab")
    {
      var w := once[i..i + 2];
      LowerAt(w, 0);
      LowerAt(w, 1);
      LowerAt("ab", 0);
      LowerAt("ab", 1);
      if i < 13 {
        assert once[i + 1] != 'b' && once[i + 1] != 'B';
      } else {
        assert once[i] == 'm';
      }
    }
    assert ["a", "ab"][..1] == ["a"] && ["a"][..0] == [];
    HighlightUnchangedIff(once, "ab");
  }
}
