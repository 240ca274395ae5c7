/** Models of the two Python string operations the search-query builder is made
    of: `str.split()` with no argument (white-space tokenization) and
    `sep.join(terms)`. It also defines `str.split(sep)` for a one-character
    separator (`SplitOn`), which the builder does not call: it is a reference
    inverse of `sep.join`, used to prove that the joined terms can be recovered. */
module PyStr {

  /** The characters Python's `str.isspace()` accepts, which are the ones that
      `str.split()` without an argument separates on: the ASCII controls
      TAB, LF, VT, FF, CR (9-13), the information separators FS, GS, RS, US
      (28-31), SPACE, and the non-ASCII white space of the Unicode database. */
  predicate IsSpace(c: char)
  {
    || ('\t' <= c <= '\r')
    || ('\U{1C}' <= c <= ' ')
    || c == '\U{85}' || c == '\U{A0}' || c == '\U{1680}'
    || ('\U{2000}' <= c <= '\U{200A}')
    || c == '\U{2028}' || c == '\U{2029}' || c == '\U{202F}' || c == '\U{205F}'
    || c == '\U{3000}'
  }

  /** Every character of `s` is white space (this includes the empty string). */
  predicate IsBlank(s: string)
  {
    forall i :: 0 <= i < |s| ==> IsSpace(s[i])
  }

  /** No character of `s` is white space. */
  predicate NoSpace(s: string)
  {
    forall i :: 0 <= i < |s| ==> !IsSpace(s[i])
  }

  /** What `str.split()` can produce as one term: a non-empty run without white space. */
  predicate IsTerm(t: string)
  {
    t != [] && NoSpace(t)
  }

  /** The characters of `s` that are not white space, in their order. */
  function RemoveSpace(s: string): (r: string)
    ensures NoSpace(r)
  {
    if s == [] then []
    else if IsSpace(s[0]) then RemoveSpace(s[1..])
    else [s[0]] + RemoveSpace(s[1..])
  }

  /** The terms glued together with nothing between them. */
  function Concat(ts: seq<string>): string
  {
    if ts == [] then [] else ts[0] + Concat(ts[1..])
  }

  /** The pending term, if one has been read. */
  function Flush(word: string): seq<string>
  {
    if word == [] then [] else [word]
  }

  /** Python's `str.split()` scanning `s` left to right, with `word` the characters
      of the term read so far: white space ends a pending term, any other
      character extends it, and the end of input ends it. */
  function Scan(s: string, word: string): (terms: seq<string>)
    requires NoSpace(word)
    ensures forall i :: 0 <= i < |terms| ==> IsTerm(terms[i])
    decreases |s|
  {
    if s == [] then Flush(word)
    else if IsSpace(s[0]) then Flush(word) + Scan(s[1..], [])
    else Scan(s[1..], word + [s[0]])
  }

  /** `s.split()`: the maximal runs of non-white-space characters of `s`. */
  function Split(s: string): (terms: seq<string>)
    ensures forall i :: 0 <= i < |terms| ==> IsTerm(terms[i])
  {
    Scan(s, [])
  }

  /** `sep.join(ts)`: the terms in order with `sep` between neighbours, so
      n >= 1 terms give their own characters plus n - 1 copies of `sep`. */
  function Join(ts: seq<string>, sep: string): (r: string)
    ensures ts == [] ==> r == []
    ensures ts != [] ==> |r| == |Concat(ts)| + (|ts| - 1) * |sep|
  {
    if ts == [] then []
    else if |ts| == 1 then ts[0]
    else ts[0] + sep + Join(ts[1..], sep)
  }

  /** Python's `s.split(sep)` for a one-character separator, scanning left to
      right with `part` the piece read so far; every separator closes a piece,
      so the result always has one piece more than `s` has separators. */
  function Cut(s: string, sep: char, part: string): (pieces: seq<string>)
    ensures |pieces| == multiset(s)[sep] + 1
    decreases |s|
  {
    if s == [] then [part]
    else
      assert s == [s[0]] + s[1..];
      if s[0] == sep then [part] + Cut(s[1..], sep, [])
      else Cut(s[1..], sep, part + [s[0]])
  }

  /** `s.split(sep)` for a one-character separator (a reference inverse of
      `Join`, not a step of the query builder). */
  function SplitOn(s: string, sep: char): (pieces: seq<string>)
    ensures |pieces| == multiset(s)[sep] + 1
  {
    Cut(s, sep, [])
  }

  // ---------------------------------------------------------------------------
  // Tokenization: the scanner splits at every white-space character

  /** A white-space character cuts the input in two and the halves are scanned
      independently. */
  lemma {:induction false} ScanAtSpace(a: string, c: char, b: string, word: string)
    requires NoSpace(word) && IsSpace(c)
    ensures Scan(a + [c] + b, word) == Scan(a, word) + Split(b)
    decreases |a|
  {
    var s := a + [c] + b;
    if a == [] {
      assert s[0] == c && s[1..] == b;
    } else {
      assert s[0] == a[0] && s[1..] == a[1..] + [c] + b;
      if IsSpace(a[0]) {
        ScanAtSpace(a[1..], c, b, []);
      } else {
        ScanAtSpace(a[1..], c, b, word + [a[0]]);
      }
    }
  }

  /** Leading white space is skipped without effect. */
  lemma {:induction false} ScanBlankPrefix(w: string, s: string)
    requires IsBlank(w)
    ensures Scan(w + s, []) == Scan(s, [])
    decreases |w|
  {
    if w == [] {
      assert w + s == s;
    } else {
      assert (w + s)[0] == w[0] && (w + s)[1..] == w[1..] + s;
      ScanBlankPrefix(w[1..], s);
    }
  }

  /** The scanner yields nothing only if no term was pending and the rest is blank. */
  lemma {:induction false} ScanEmpty(s: string, word: string)
    requires NoSpace(word) && Scan(s, word) == []
    ensures word == [] && IsBlank(s)
    decreases |s|
  {
    if s != [] {
      if IsSpace(s[0]) {
        ScanEmpty(s[1..], []);
      } else {
        assert |Flush(word + [s[0]])| == 1;
        ScanEmpty(s[1..], word + [s[0]]);
      }
    }
  }

  /** A run without white space is appended to the pending term. */
  lemma {:induction false} ScanNoSpace(s: string, word: string)
    requires NoSpace(word) && NoSpace(s)
    ensures Scan(s, word) == Flush(word + s)
    decreases |s|
  {
    if s == [] {
      assert word + s == word;
    } else {
      assert word + s == (word + [s[0]]) + s[1..];
      ScanNoSpace(s[1..], word + [s[0]]);
    }
  }

  lemma FlushConcat(word: string)
    ensures Concat(Flush(word)) == word
  {
    if word != [] {
      assert Concat([word]) == word + Concat([]);
    }
  }

  lemma {:induction false} ConcatAppend(xs: seq<string>, ys: seq<string>)
    ensures Concat(xs + ys) == Concat(xs) + Concat(ys)
    decreases |xs|
  {
    if xs == [] {
      assert xs + ys == ys;
    } else {
      assert (xs + ys)[0] == xs[0] && (xs + ys)[1..] == xs[1..] + ys;
      ConcatAppend(xs[1..], ys);
    }
  }

  /** Nothing but white space is lost: the terms together are the pending term
      followed by the non-white-space characters of the input. */
  lemma {:induction false} ScanConcat(s: string, word: string)
    requires NoSpace(word)
    ensures Concat(Scan(s, word)) == word + RemoveSpace(s)
    decreases |s|
  {
    if s == [] {
      FlushConcat(word);
    } else if IsSpace(s[0]) {
      var rest := Scan(s[1..], []);
      assert Scan(s, word) == Flush(word) + rest;
      assert RemoveSpace(s) == RemoveSpace(s[1..]);
      assert Concat(Flush(word) + rest) == word + RemoveSpace(s[1..]) by {
        ScanConcat(s[1..], []);
        ConcatAppend(Flush(word), rest);
        FlushConcat(word);
      }
    } else {
      var longer := word + [s[0]];
      assert Scan(s, word) == Scan(s[1..], longer);
      assert longer + RemoveSpace(s[1..]) == word + RemoveSpace(s) by {
        assert RemoveSpace(s) == [s[0]] + RemoveSpace(s[1..]);
      }
      ScanConcat(s[1..], longer);
    }
  }

  // ---------------------------------------------------------------------------
  // Properties of str.split()

  /** The terms of `s`, glued together, are exactly `s` with its white space removed:
      the terms keep their left-to-right order and no other character is dropped. */
  lemma SplitConcat(s: string)
    ensures Concat(Split(s)) == RemoveSpace(s)
  {
    ScanConcat(s, []);
  }

  /** `s.split()` is empty exactly when `s` is empty or all white space. */
  lemma SplitBlank(s: string)
    ensures Split(s) == [] <==> IsBlank(s)
  {
    if IsBlank(s) {
      ScanBlankPrefix(s, []);
      assert s + [] == s;
    }
    if Split(s) == [] {
      ScanEmpty(s, []);
    }
  }

  /** A single term splits to itself. */
  lemma SplitWord(w: string)
    requires IsTerm(w)
    ensures Split(w) == [w]
  {
    ScanNoSpace(w, []);
    assert [] + w == w;
  }

  /** A non-empty run of white space separates two independently split halves,
      however long the run is. */
  lemma SplitAround(a: string, w: string, b: string)
    requires w != [] && IsBlank(w)
    ensures Split(a + w + b) == Split(a) + Split(b)
  {
    assert a + w + b == a + [w[0]] + (w[1..] + b);
    ScanAtSpace(a, w[0], w[1..] + b, []);
    ScanBlankPrefix(w[1..], b);
  }

  /** Only the presence of a white-space run matters, not its length or its characters. */
  lemma SplitRunLength(a: string, w: string, b: string)
    requires w != [] && IsBlank(w)
    ensures Split(a + w + b) == Split(a + " " + b)
  {
    SplitAround(a, w, b);
    SplitAround(a, " ", b);
  }

  /** Leading and trailing white space does not change the terms. */
  lemma SplitTrim(w1: string, s: string, w2: string)
    requires IsBlank(w1) && IsBlank(w2)
    ensures Split(w1 + s + w2) == Split(s)
  {
    ScanBlankPrefix(w1, s + w2);
    assert w1 + s + w2 == w1 + (s + w2);
    if w2 != [] {
      SplitAround(s, w2, []);
      SplitBlank([]);
      assert s + w2 + [] == s + w2;
    } else {
      assert s + w2 == s;
    }
  }

  /** Joining valid terms with a single space and splitting again gives the terms
      back: `' '.join` is a right inverse of `str.split()`. */
  lemma {:induction false} SplitJoinSpace(ts: seq<string>)
    requires forall i :: 0 <= i < |ts| ==> IsTerm(ts[i])
    ensures Split(Join(ts, " ")) == ts
    decreases |ts|
  {
    if ts == [] {
      assert Split([]) == [];
    } else if |ts| == 1 {
      SplitWord(ts[0]);
    } else {
      ScanAtSpace(ts[0], ' ', Join(ts[1..], " "), []);
      assert ts[0] + " " + Join(ts[1..], " ") == ts[0] + [' '] + Join(ts[1..], " ");
      SplitWord(ts[0]);
      SplitJoinSpace(ts[1..]);
      assert ts == [ts[0]] + ts[1..];
    }
  }

  /** Collapsing every white-space run of `s` to one space (the terms joined by
      a space) does not change the terms. */
  lemma SplitNormalize(s: string)
    ensures Split(Join(Split(s), " ")) == Split(s)
  {
    SplitJoinSpace(Split(s));
  }

  // ---------------------------------------------------------------------------
  // Properties of sep.join

  /** The join holds each term's characters plus one separator per gap. */
  lemma {:induction false} JoinCount(ts: seq<string>, c: char, x: char)
    requires ts != []
    ensures multiset(Join(ts, [c]))[x]
         == multiset(Concat(ts))[x] + (if x == c then |ts| - 1 else 0)
    decreases |ts|
  {
    if |ts| == 1 {
      assert Concat(ts) == ts[0] + [];
    } else {
      JoinCount(ts[1..], c, x);
    }
  }

  /** Joining a term list whose first term is non-empty gives a non-empty string. */
  lemma JoinNonEmpty(ts: seq<string>, sep: string)
    requires ts != [] && ts[0] != []
    ensures Join(ts, sep) != []
  {
    if |ts| > 1 {
      assert |Join(ts, sep)| >= |ts[0]|;
    }
  }

  /** Joining white-space-free terms with a white-space-free separator yields no white space. */
  lemma {:induction false} JoinNoSpace(ts: seq<string>, sep: string)
    requires forall i :: 0 <= i < |ts| ==> NoSpace(ts[i])
    requires NoSpace(sep)
    ensures NoSpace(Join(ts, sep))
    decreases |ts|
  {
    if |ts| > 1 {
      JoinNoSpace(ts[1..], sep);
      var r := Join(ts[1..], sep);
      var j := ts[0] + sep + r;
      forall i | 0 <= i < |j| ensures !IsSpace(j[i]) {
        if i < |ts[0]| {
          assert j[i] == ts[0][i];
        } else if i < |ts[0]| + |sep| {
          assert j[i] == sep[i - |ts[0]|];
        } else {
          assert j[i] == r[i - |ts[0]| - |sep|];
        }
      }
    }
  }

  /** A piece without the separator is carried whole into the pending piece. */
  lemma {:induction false} CutNoSep(t: string, c: char, part: string)
    requires c !in t
    ensures Cut(t, c, part) == [part + t]
    decreases |t|
  {
    if t == [] {
      assert part + t == part;
    } else {
      assert part + t == (part + [t[0]]) + t[1..];
      CutNoSep(t[1..], c, part + [t[0]]);
    }
  }

  /** The first separator closes the pending piece. */
  lemma {:induction false} CutAtSep(t: string, c: char, rest: string, part: string)
    requires c !in t
    ensures Cut(t + [c] + rest, c, part) == [part + t] + Cut(rest, c, [])
    decreases |t|
  {
    var s := t + [c] + rest;
    if t == [] {
      assert s[0] == c && s[1..] == rest;
      assert part + t == part;
    } else {
      assert s[0] == t[0] && s[1..] == t[1..] + [c] + rest;
      assert part + t == (part + [t[0]]) + t[1..];
      CutAtSep(t[1..], c, rest, part + [t[0]]);
    }
  }

  /** Splitting on the separator recovers the joined terms, provided no term
      contains the separator: `sep.split` is a left inverse of `sep.join`. */
  lemma {:induction false} SplitOnJoin(ts: seq<string>, c: char)
    requires ts != []
    requires forall i :: 0 <= i < |ts| ==> c !in ts[i]
    ensures SplitOn(Join(ts, [c]), c) == ts
    decreases |ts|
  {
    if |ts| == 1 {
      CutNoSep(ts[0], c, []);
      assert [] + ts[0] == ts[0];
    } else {
      var rest := Join(ts[1..], [c]);
      assert Join(ts, [c]) == ts[0] + [c] + rest;
      assert Cut(ts[0] + [c] + rest, c, []) == [ts[0]] + Cut(rest, c, []) by {
        CutAtSep(ts[0], c, rest, []);
        assert [] + ts[0] == ts[0];
      }
      SplitOnJoin(ts[1..], c);
      assert ts == [ts[0]] + ts[1..];
    }
  }

  // ---------------------------------------------------------------------------
  // Helpers about characters of the terms

  /** Each term's characters occur in the glued terms. */
  lemma {:induction false} ConcatHas(ts: seq<string>, k: nat)
    requires k < |ts|
    ensures multiset(ts[k]) <= multiset(Concat(ts))
    decreases |ts|
  {
    if k > 0 {
      ConcatHas(ts[1..], k - 1);
    }
  }

  /** Removing white space keeps every other character, as many times as it occurs. */
  lemma {:induction false} RemoveSpaceCount(s: string, x: char)
    requires !IsSpace(x)
    ensures multiset(RemoveSpace(s))[x] == multiset(s)[x]
    decreases |s|
  {
    if s != [] {
      assert s == [s[0]] + s[1..];
      RemoveSpaceCount(s[1..], x);
    }
  }

  /** A non-white-space character occurs in the terms exactly as often as in the input. */
  lemma SplitCount(s: string, x: char)
    requires !IsSpace(x)
    ensures multiset(Concat(Split(s)))[x] == multiset(s)[x]
  {
    SplitConcat(s);
    RemoveSpaceCount(s, x);
  }

  /** A non-white-space character absent from the input is absent from every term. */
  lemma SplitAvoids(s: string, x: char)
    requires !IsSpace(x) && x !in s
    ensures forall i :: 0 <= i < |Split(s)| ==> x !in Split(s)[i]
  {
    SplitCount(s, x);
    forall i | 0 <= i < |Split(s)| ensures x !in Split(s)[i] {
      ConcatHas(Split(s), i);
    }
  }

  /** Joining two terms. */
  lemma JoinTwo(a: string, b: string, sep: string)
    ensures Join([a, b], sep) == a + sep + b
  {
    assert [a, b][1..] == [b];
  }

  /** Joining three terms. */
  lemma JoinThree(a: string, b: string, c: string, sep: string)
    ensures Join([a, b, c], sep) == a + sep + b + sep + c
  {
    assert [a, b, c][1..] == [b, c];
    JoinTwo(b, c, sep);
  }

  /** Two terms separated by one space split back into those terms. */
  lemma SplitTwo(a: string, b: string)
    requires IsTerm(a) && IsTerm(b)
    ensures Split(a + " " + b) == [a, b]
  {
    JoinTwo(a, b, " ");
    SplitJoinSpace([a, b]);
  }

  /** Three terms separated by single spaces split back into those terms. */
  lemma SplitThree(a: string, b: string, c: string)
    requires IsTerm(a) && IsTerm(b) && IsTerm(c)
    ensures Split(a + " " + b + " " + c) == [a, b, c]
  {
    JoinThree(a, b, c, " ");
    SplitJoinSpace([a, b, c]);
  }
}
