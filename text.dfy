/** ASCII case folding, substring search and the ordering of file names:
    the string primitives the keyword scanner relies on (Python's
    `str.lower()`, the `in` operator on strings and `<` on strings). */
module Text {

  /** Lower-case one character the way `str.lower()` does for ASCII. */
  function Lower(c: char): (r: char)
    ensures !('A' <= r <= 'Z')
    ensures 'A' <= c <= 'Z' ==> r as int == c as int + 32
    ensures !('A' <= c <= 'Z') ==> r == c
  {
    if 'A' <= c <= 'Z' then (c as int + 32) as char else c
  }

  /** `s.lower()`, restricted to ASCII case folding. */
  function LowerStr(s: string): (r: string)
    ensures |r| == |s|
  {
    if s == [] then [] else [Lower(s[0])] + LowerStr(s[1..])
  }

  /** Lower-casing commutes with concatenation. */
  lemma {:induction false} LowerStrAppend(a: string, b: string)
    ensures LowerStr(a + b) == LowerStr(a) + LowerStr(b)
    decreases |a|
  {
    if a != [] {
      LowerStrAppend(a[1..], b);
      assert (a + b)[1..] == a[1..] + b;
    } else {
      assert a + b == b;
    }
  }

  lemma LowerStrSplit(s: string, i: nat)
    requires i <= |s|
    ensures LowerStr(s)[..i] == LowerStr(s[..i]) && LowerStr(s)[i..] == LowerStr(s[i..])
  {
    assert s == s[..i] + s[i..];
    LowerStrAppend(s[..i], s[i..]);
  }

  /** Lower-casing works character by character. */
  lemma LowerAt(s: string, i: nat)
    requires i < |s|
    ensures LowerStr(s)[i] == Lower(s[i])
  {
    LowerStrSplit(s, i);
    assert s[i..] == [s[i]] + s[i + 1..];
  }

  /** Lower-casing commutes with taking a slice. */
  lemma LowerStrSlice(s: string, i: nat, j: nat)
    requires i <= j <= |s|
    ensures LowerStr(s)[i..j] == LowerStr(s[i..j])
  {
    LowerStrSplit(s, j);
    LowerStrSplit(s[..j], i);
    assert s[..j][i..] == s[i..j];
    assert LowerStr(s)[..j][i..] == LowerStr(s)[i..j];
  }

  /** `pat` occurs in `s` at position `i`. */
  ghost predicate OccursAt(pat: string, s: string, i: int)
  {
    0 <= i && i + |pat| <= |s| && s[i..i + |pat|] == pat
  }

  /** Python's `pat in s` for strings: a plain substring test. */
  function Occurs(pat: string, s: string): (b: bool)
    ensures b <==> exists i :: OccursAt(pat, s, i)
    decreases |s|
  {
    if |pat| > |s| then false
    else if s[..|pat|] == pat then
      assert OccursAt(pat, s, 0);
      true
    else
      var b := Occurs(pat, s[1..]);
      if b then
        assert forall i :: OccursAt(pat, s[1..], i) ==> OccursAt(pat, s, i + 1);
        b
      else
        assert forall i :: OccursAt(pat, s, i) ==> i >= 1 && OccursAt(pat, s[1..], i - 1);
        b
  }

  /** Two strings of the same length are equal up to ASCII case. */
  predicate EqualIgnoreCase(a: string, b: string)
  {
    LowerStr(a) == LowerStr(b)
  }

  /** `key` matches `s` case-insensitively at position `i`: the test the
      compiled `re.IGNORECASE` pattern of a literal keyword performs. */
  predicate MatchesAt(s: string, i: int, key: string)
  {
    0 <= i && i + |key| <= |s| && EqualIgnoreCase(s[i..i + |key|], key)
  }

  /** `key.lower() in text.lower()`. */
  function ContainsIgnoreCase(text: string, key: string): (b: bool)
    ensures b <==> exists i :: MatchesAt(text, i, key)
  {
    var b := Occurs(LowerStr(key), LowerStr(text));
    if b then
      assert forall i :: OccursAt(LowerStr(key), LowerStr(text), i) ==> MatchesAt(text, i, key) by {
        forall i | OccursAt(LowerStr(key), LowerStr(text), i)
          ensures MatchesAt(text, i, key)
        {
          LowerStrSlice(text, i, i + |key|);
        }
      }
      b
    else
      assert forall i :: MatchesAt(text, i, key) ==> OccursAt(LowerStr(key), LowerStr(text), i) by {
        forall i | MatchesAt(text, i, key)
          ensures OccursAt(LowerStr(key), LowerStr(text), i)
        {
          LowerStrSlice(text, i, i + |key|);
        }
      }
      b
  }

  /** A keyword is found at the start of a text that begins with it. */
  lemma PrefixMatches(s: string, key: string)
    requires |key| <= |s| && s[..|key|] == key
    ensures MatchesAt(s, 0, key) && ContainsIgnoreCase(s, key)
  {
    assert s[0..0 + |key|] == key;
    assert EqualIgnoreCase(key, key);
    assert MatchesAt(s, 0, key);
  }

  /** A keyword longer than the text is never found in it. */
  lemma TooLongNotContained(s: string, key: string)
    requires |s| < |key|
    ensures !ContainsIgnoreCase(s, key)
  {
  }

  /** The empty keyword is contained in every text. */
  lemma EmptyKeyAlwaysContained(text: string)
    ensures ContainsIgnoreCase(text, "")
  {
    assert MatchesAt(text, 0, "");
  }

  /** Python's `a <= b` on strings: lexicographic order by code point. */
  predicate NameLe(a: string, b: string)
    decreases |a|
  {
    a == [] || (b != [] && (a[0] < b[0] || (a[0] == b[0] && NameLe(a[1..], b[1..]))))
  }

  lemma {:induction false} NameLeTotal(a: string, b: string)
    ensures NameLe(a, b) || NameLe(b, a)
    decreases |a|
  {
    if a != [] && b != [] && a[0] == b[0] { NameLeTotal(a[1..], b[1..]); }
  }

  lemma {:induction false} NameLeTransitive(a: string, b: string, c: string)
    requires NameLe(a, b) && NameLe(b, c)
    ensures NameLe(a, c)
    decreases |a|
  {
    if a != [] && a[0] == b[0] && b[0] == c[0] {
      NameLeTransitive(a[1..], b[1..], c[1..]);
    }
  }

  lemma {:induction false} NameLeAntisymmetric(a: string, b: string)
    requires NameLe(a, b) && NameLe(b, a)
    ensures a == b
    decreases |a|
  {
    if a != [] {
      NameLeAntisymmetric(a[1..], b[1..]);
      assert a == [a[0]] + a[1..] && b == [b[0]] + b[1..];
    }
  }
}
