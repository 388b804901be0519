/** The string operations the handler relies on, with Python's meaning:
    `str.split(sep)` for a one-character separator, the substring test
    `pat in s`, the leftmost match of a literal, and the code-point order
    that `list.sort` uses on `str`. */
module Text {
  import opened Options

  // ---------------------------------------------------------------------
  // str.split(sep)
  // ---------------------------------------------------------------------

  /** `s.split(sep)`: every occurrence of `sep` cuts, empty pieces are
      kept, and there is always one piece more than there are separators
      (so `"".split(",") == [""]`). */
  function Split(s: string, sep: char): (r: seq<string>)
    ensures |r| >= 1
    ensures forall i :: 0 <= i < |r| ==> sep !in r[i]
    ensures |r| <= |s| + 1
  {
    if |s| == 0 then [""]
    else
      var rest := Split(s[1..], sep);
      if s[0] == sep then [""] + rest
      else [[s[0]] + rest[0]] + rest[1..]
  }

  /** `sep.join(pieces)`, the inverse of `Split`. */
  function Join(pieces: seq<string>, sep: char): string
  {
    if |pieces| == 0 then ""
    else if |pieces| == 1 then pieces[0]
    else pieces[0] + [sep] + Join(pieces[1..], sep)
  }

  /** The `i`-th piece of `s.split(sep)`, or `None` where Python raises
      `IndexError`. */
  function Token(s: string, sep: char, i: nat): Option<string>
  {
    var pieces := Split(s, sep);
    if i < |pieces| then Some(pieces[i]) else None
  }

  /** Joining the pieces of a split gives back the original string. */
  lemma {:induction false} JoinSplit(s: string, sep: char)
    ensures Join(Split(s, sep), sep) == s
  {
    if |s| > 0 {
      var rest := Split(s[1..], sep);
      JoinSplit(s[1..], sep);
      if s[0] == sep {
        assert Join([""] + rest, sep) == "" + [sep] + Join(rest, sep);
        assert s == [s[0]] + s[1..];
      } else {
        var head := [s[0]] + rest[0];
        var r := [head] + rest[1..];
        if |rest| == 1 {
          assert Join(r, sep) == head;
          assert Join(rest, sep) == rest[0];
        } else {
          assert r[1..] == rest[1..];
          assert Join(r, sep) == head + [sep] + Join(rest[1..], sep);
          assert Join(rest, sep) == rest[0] + [sep] + Join(rest[1..], sep);
        }
        assert s == [s[0]] + s[1..];
      }
    }
  }

  /** A piece free of the separator, followed by the separator, splits off
      as exactly one leading piece. */
  lemma {:induction false} SplitAfterPiece(p: string, sep: char, t: string)
    requires sep !in p
    ensures Split(p + [sep] + t, sep) == [p] + Split(t, sep)
  {
    var s := p + [sep] + t;
    if |p| == 0 {
      assert s == [sep] + t;
      assert s[1..] == t;
    } else {
      assert s[0] == p[0] && s[1..] == p[1..] + [sep] + t;
      SplitAfterPiece(p[1..], sep, t);
      assert [p[0]] + p[1..] == p;
    }
  }

  /** A string without the separator splits into itself alone. */
  lemma {:induction false} SplitNoSeparator(s: string, sep: char)
    requires sep !in s
    ensures Split(s, sep) == [s]
  {
    if |s| > 0 {
      SplitNoSeparator(s[1..], sep);
      assert [s[0]] + s[1..] == s;
    }
  }

  /** Five separator-free words joined by the separator split back into
      the five words. */
  lemma SplitFive(a: string, b: string, c: string, d: string, e: string, sep: char)
    requires sep !in a && sep !in b && sep !in c && sep !in d && sep !in e
    ensures Split(a + [sep] + (b + [sep] + (c + [sep] + (d + [sep] + e))), sep) == [a, b, c, d, e]
  {
    SplitNoSeparator(e, sep);
    SplitAfterPiece(d, sep, e);
    SplitAfterPiece(c, sep, d + [sep] + e);
    SplitAfterPiece(b, sep, c + [sep] + (d + [sep] + e));
    SplitAfterPiece(a, sep, b + [sep] + (c + [sep] + (d + [sep] + e)));
  }

  /** Splitting a join of separator-free pieces gives the pieces back. */
  lemma {:induction false} SplitJoin(pieces: seq<string>, sep: char)
    requires |pieces| >= 1
    requires forall i :: 0 <= i < |pieces| ==> sep !in pieces[i]
    ensures Split(Join(pieces, sep), sep) == pieces
  {
    if |pieces| == 1 {
      SplitNoSeparator(pieces[0], sep);
    } else {
      SplitJoin(pieces[1..], sep);
      SplitAfterPiece(pieces[0], sep, Join(pieces[1..], sep));
      assert [pieces[0]] + pieces[1..] == pieces;
    }
  }

  // ---------------------------------------------------------------------
  // Substring search: `pat in s` and re.search of a literal
  // ---------------------------------------------------------------------

  /** `pat` occurs in `s` starting at index `j`. */
  predicate OccursAt(s: string, pat: string, j: int)
  {
    0 <= j && j + |pat| <= |s| && s[j..j + |pat|] == pat
  }

  /** The leftmost occurrence of `pat` in `s` at or after `from`. */
  function IndexFrom(s: string, pat: string, from: nat): (r: Option<nat>)
    ensures r.Some? ==> from <= r.value && OccursAt(s, pat, r.value)
    ensures r.Some? ==> forall j :: from <= j < r.value ==> !OccursAt(s, pat, j)
    ensures r.None? ==> forall j :: from <= j ==> !OccursAt(s, pat, j)
    decreases |s| - from
  {
    if from + |pat| > |s| then None
    else if s[from..from + |pat|] == pat then Some(from)
    else IndexFrom(s, pat, from + 1)
  }

  /** The leftmost occurrence of `pat` in `s`, as `re.search` of a literal
      (or `str.find`) reports it. */
  function IndexOf(s: string, pat: string): (r: Option<nat>)
    ensures r.Some? ==> OccursAt(s, pat, r.value)
    ensures r.Some? ==> forall j :: 0 <= j < r.value ==> !OccursAt(s, pat, j)
    ensures r.None? <==> forall j :: !OccursAt(s, pat, j)
  {
    IndexFrom(s, pat, 0)
  }

  /** Python's `pat in s` for strings: a substring test. */
  predicate Contains(s: string, pat: string)
  {
    IndexOf(s, pat).Some?
  }

  /** `Contains` holds exactly when some position of `s` starts a copy of `pat`. */
  lemma ContainsMeansOccurs(s: string, pat: string)
    ensures Contains(s, pat) <==> exists j :: OccursAt(s, pat, j)
  {
  }

  // ---------------------------------------------------------------------
  // Code-point order on str
  // ---------------------------------------------------------------------

  /** `a <= b` for Python strings: lexicographic by code point, a proper
      prefix before its extensions. */
  predicate LexLe(a: string, b: string)
  {
    if |a| == 0 then true
    else if |b| == 0 then false
    else if a[0] != b[0] then a[0] < b[0]
    else LexLe(a[1..], b[1..])
  }

  lemma {:induction false} LexLeReflexive(a: string)
    ensures LexLe(a, a)
  {
    if |a| > 0 {
      LexLeReflexive(a[1..]);
    }
  }

  lemma {:induction false} LexLeTotal(a: string, b: string)
    ensures LexLe(a, b) || LexLe(b, a)
  {
    if |a| > 0 && |b| > 0 && a[0] == b[0] {
      LexLeTotal(a[1..], b[1..]);
    }
  }

  lemma {:induction false} LexLeAntisymmetric(a: string, b: string)
    requires LexLe(a, b) && LexLe(b, a)
    ensures a == b
  {
    if |a| > 0 && |b| > 0 {
      LexLeAntisymmetric(a[1..], b[1..]);
      assert a == [a[0]] + a[1..];
      assert b == [b[0]] + b[1..];
    }
  }

  lemma {:induction false} LexLeTransitive(a: string, b: string, c: string)
    requires LexLe(a, b) && LexLe(b, c)
    ensures LexLe(a, c)
  {
    if |a| > 0 && |b| > 0 && |c| > 0 && a[0] == b[0] && b[0] == c[0] {
      LexLeTransitive(a[1..], b[1..], c[1..]);
    }
  }

  /** `LexLe` is a total order on strings. */
  lemma LexLeIsTotalOrder()
    ensures forall a :: LexLe(a, a)
    ensures forall a, b :: LexLe(a, b) || LexLe(b, a)
    ensures forall a, b :: LexLe(a, b) && LexLe(b, a) ==> a == b
    ensures forall a, b, c :: LexLe(a, b) && LexLe(b, c) ==> LexLe(a, c)
  {
    forall a { LexLeReflexive(a); }
    forall a, b { LexLeTotal(a, b); }
    forall a, b | LexLe(a, b) && LexLe(b, a) { LexLeAntisymmetric(a, b); }
    forall a, b, c | LexLe(a, b) && LexLe(b, c) { LexLeTransitive(a, b, c); }
  }

  /** Comparing two strings that start with prefixes of equal length: the
      prefixes decide unless they are equal, in which case the rests do. */
  lemma {:induction false} LexLeConcat(p1: string, s1: string, p2: string, s2: string)
    requires |p1| == |p2|
    ensures LexLe(p1 + s1, p2 + s2) == (if p1 == p2 then LexLe(s1, s2) else LexLe(p1, p2))
  {
    if |p1| == 0 {
      assert p1 + s1 == s1 && p2 + s2 == s2;
    } else {
      assert (p1 + s1)[0] == p1[0] && (p2 + s2)[0] == p2[0];
      if p1[0] == p2[0] {
        assert (p1 + s1)[1..] == p1[1..] + s1;
        assert (p2 + s2)[1..] == p2[1..] + s2;
        LexLeConcat(p1[1..], s1, p2[1..], s2);
        assert p1 == [p1[0]] + p1[1..];
        assert p2 == [p2[0]] + p2[1..];
        assert p1 == p2 <==> p1[1..] == p2[1..];
      }
    }
  }

  /** Of two strings ordered as `LexLe`, with prefixes of equal length,
      the prefixes are ordered too. */
  lemma LexLePrefix(p1: string, s1: string, p2: string, s2: string)
    requires |p1| == |p2| && LexLe(p1 + s1, p2 + s2)
    ensures p1 == p2 || LexLe(p1, p2)
  {
    LexLeConcat(p1, s1, p2, s2);
  }

  /** Two one-character strings compare as their characters do. */
  lemma LexLeSingle(x: char, y: char)
    ensures LexLe([x], [y]) <==> x <= y
  {
    if x == y {
      assert [x][1..] == [];
    }
  }
}
