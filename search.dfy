/** The search-query builder of the mock database (indiek/mockdb/search.py):
    a free-text string becomes the regular-expression source
    `"(" + "|".join(s.split()) + ")"`, compiled case-insensitively. The compiled
    pattern is modelled by its source text and its ignore-case flag. */
module Search {
  import opened PyStr

  /** What `re.compile(pattern, flags=re.IGNORECASE)` is given. */
  datatype Query = Query(pattern: string, ignoreCase: bool)

  /** The pattern source: the terms of `s`, verbatim and in order, as one
      parenthesised alternation. */
  function BuildPattern(s: string): (p: string)
    ensures |p| >= 2 && p[0] == '(' && p[|p| - 1] == ')'
    ensures p[1..|p| - 1] == Join(Split(s), "|")
  {
    "(" + Join(Split(s), "|") + ")"
  }

  /** `build_search_query(s)`: the pattern of `s`, always flagged case-insensitive. */
  function BuildSearchQuery(s: string): (q: Query)
    ensures q.ignoreCase
    ensures q.pattern == BuildPattern(s)
  {
    Query(BuildPattern(s), true)
  }

  /** The text between the parentheses. */
  function Inner(p: string): string
    requires |p| >= 2
  {
    p[1..|p| - 1]
  }

  /** The pattern is exactly `()` when, and only when, the input has no terms
      (it is empty or all white space). */
  lemma BlankPattern(s: string)
    ensures BuildPattern(s) == "()" <==> IsBlank(s)
  {
    SplitBlank(s);
    if Split(s) != [] {
      JoinNonEmpty(Split(s), "|");
      assert |BuildPattern(s)| > 2;
    }
  }

  /** A single term `w` gives `(w)`. */
  lemma WordPattern(w: string)
    requires IsTerm(w)
    ensures BuildPattern(w) == "(" + w + ")"
  {
    SplitWord(w);
  }

  /** The pattern contains no white space, whatever the input. */
  lemma PatternNoSpace(s: string)
    ensures NoSpace(BuildPattern(s))
  {
    var p := BuildPattern(s);
    JoinNoSpace(Split(s), "|");
    forall i | 0 <= i < |p| ensures !IsSpace(p[i]) {
      if 0 < i < |p| - 1 {
        assert p[i] == Inner(p)[i - 1];
      }
    }
  }

  /** For an input with n >= 1 terms, the pattern holds the input's own `|`
      characters plus exactly n - 1 inserted between the terms, the input's own
      `(` and `)` plus the one enclosing pair, and every other non-white-space
      character exactly as often as the input. */
  lemma PatternCount(s: string, x: char)
    requires !IsBlank(s) && !IsSpace(x)
    ensures multiset(BuildPattern(s))[x]
         == multiset(s)[x]
          + (if x == '|' then |Split(s)| - 1 else 0)
          + (if x == '(' || x == ')' then 1 else 0)
  {
    var ts := Split(s);
    SplitBlank(s);
    JoinCount(ts, '|', x);
    SplitCount(s, x);
    assert BuildPattern(s) == "(" + Join(ts, "|") + ")";
  }

  /** When the input holds no `|` of its own, the alternatives of the pattern
      (its inner text cut at `|`) are exactly the input's terms, in order. */
  lemma PatternAlternatives(s: string)
    requires !IsBlank(s) && '|' !in s
    ensures SplitOn(Inner(BuildPattern(s)), '|') == Split(s)
  {
    SplitBlank(s);
    SplitAvoids(s, '|');
    SplitOnJoin(Split(s), '|');
  }

  /** For inputs without `|`, two inputs give the same pattern exactly when they
      have the same terms: the pattern loses nothing but white space. */
  lemma PatternInjective(s1: string, s2: string)
    requires '|' !in s1 && '|' !in s2
    ensures BuildPattern(s1) == BuildPattern(s2) <==> Split(s1) == Split(s2)
  {
    if BuildPattern(s1) == BuildPattern(s2) {
      BlankPattern(s1);
      BlankPattern(s2);
      if !IsBlank(s1) {
        PatternAlternatives(s1);
        PatternAlternatives(s2);
      } else {
        SplitBlank(s1);
        SplitBlank(s2);
      }
    }
  }

  /** The length of a white-space run does not matter. */
  lemma PatternRunLength(a: string, w: string, b: string)
    requires w != [] && IsBlank(w)
    ensures BuildPattern(a + w + b) == BuildPattern(a + " " + b)
  {
    SplitRunLength(a, w, b);
  }

  /** Leading and trailing white space does not matter. */
  lemma PatternTrim(w1: string, s: string, w2: string)
    requires IsBlank(w1) && IsBlank(w2)
    ensures BuildPattern(w1 + s + w2) == BuildPattern(s)
  {
    SplitTrim(w1, s, w2);
  }

  /** Collapsing every white-space run to one space does not change the pattern. */
  lemma PatternNormalize(s: string)
    ensures BuildPattern(Join(Split(s), " ")) == BuildPattern(s)
  {
    SplitNormalize(s);
  }

  /** The terms of the three-word input of the module's test. */
  lemma UserTypedThisTerms()
    ensures Split("user typed This") == ["user", "typed", "This"]
  {
    assert IsTerm("user") && IsTerm("typed") && IsTerm("This");
    SplitThree("user", "typed", "This");
    assert "user" + " " + "typed" + " " + "This" == "user typed This";
  }

  /** The `|`-joined terms of the module's test, parenthesised. */
  lemma UserTypedThisAlternation()
    ensures "(" + Join(["user", "typed", "This"], "|") + ")" == "(user|typed|This)"
  {
    var ts := ["user", "typed", "This"];
    assert ts[1..] == ["typed", "This"] && ts[1..][1..] == ["This"];
    assert Join(ts[1..], "|") == "typed" + "|" + "This" == "typed|This";
    assert Join(ts, "|") == "user" + "|" + "typed|This" == "user|typed|This";
  }

  /** The three-word input of the module's test gives `(user|typed|This)`,
      flagged case-insensitive. */
  lemma UserTypedThis()
    ensures BuildSearchQuery("user typed This") == Query("(user|typed|This)", true)
  {
    UserTypedThisTerms();
    UserTypedThisAlternation();
  }

  /** Terms are inserted without escaping: `a|b c` has the two terms `a|b` and
      `c`, yet its pattern is that of the three terms `a`, `b`, `c`. */
  lemma UnescapedTerms()
    ensures Split("a|b c") == ["a|b", "c"]
    ensures BuildPattern("a|b c") == BuildPattern("a b c") == "(a|b|c)"
  {
    UnescapedTwo();
    UnescapedThree();
  }

  /** The two terms of `a|b c` and their pattern. */
  lemma UnescapedTwo()
    ensures Split("a|b c") == ["a|b", "c"]
    ensures BuildPattern("a|b c") == "(a|b|c)"
  {
    assert IsTerm("a|b") && IsTerm("c");
    SplitTwo("a|b", "c");
    assert "a|b" + " " + "c" == "a|b c";
    JoinTwo("a|b", "c", "|");
    assert "(" + ("a|b" + "|" + "c") + ")" == "(a|b|c)";
  }

  /** The three terms of `a b c` and their pattern. */
  lemma UnescapedThree()
    ensures BuildPattern("a b c") == "(a|b|c)"
  {
    assert IsTerm("a") && IsTerm("b") && IsTerm("c");
    SplitThree("a", "b", "c");
    assert "a" + " " + "b" + " " + "c" == "a b c";
    JoinThree("a", "b", "c", "|");
    assert "(" + ("a" + "|" + "b" + "|" + "c") + ")" == "(a|b|c)";
  }
}
