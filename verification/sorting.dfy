/** `list.sort(reverse=True)` on strings, modelled as an insertion sort
    of any sequence by a string key. The key is a parameter so that the
    proofs see the keys as plain strings. */
module Sorting {
  import opened Text

  /** Descending string order. */
  predicate Descending(s: seq<string>)
  {
    forall i, j :: 0 <= i < j < |s| ==> LexLe(s[j], s[i])
  }

  function Keys<T>(key: T -> string, s: seq<T>): (r: seq<string>)
    ensures |r| == |s|
    ensures forall i :: 0 <= i < |s| ==> r[i] == key(s[i])
  {
    seq(|s|, i requires 0 <= i < |s| => key(s[i]))
  }

  /** Placing an element whose key is no smaller than every key of a
      descending sequence in front keeps the sequence descending. */
  lemma PrependLarger<T>(key: T -> string, x: T, s: seq<T>)
    requires Descending(Keys(key, s))
    requires forall y :: y in s ==> LexLe(key(y), key(x))
    ensures Descending(Keys(key, [x] + s))
  {
    var r := [x] + s;
    forall i, j | 0 <= i < j < |r| ensures LexLe(key(r[j]), key(r[i])) {
      if i > 0 {
        assert r[i] == s[i - 1] && r[j] == s[j - 1];
        assert Keys(key, s)[i - 1] == key(s[i - 1]) && Keys(key, s)[j - 1] == key(s[j - 1]);
      } else {
        assert r[j] in s;
      }
    }
  }

  /** Keys of a sequence with one element in front. */
  lemma KeysCons<T>(key: T -> string, x: T, s: seq<T>)
    ensures Keys(key, [x] + s) == [key(x)] + Keys(key, s)
  {
  }

  /** The insertion point: an element with the largest key goes first. */
  lemma InsertInFront<T>(key: T -> string, e: T, s: seq<T>)
    requires Descending(Keys(key, s)) && |s| > 0
    requires LexLe(key(s[0]), key(e))
    ensures Descending(Keys(key, [e] + s))
  {
    forall y | y in s ensures LexLe(key(y), key(e)) {
      var k :| 0 <= k < |s| && s[k] == y;
      if k > 0 {
        assert Keys(key, s)[k] == key(y) && Keys(key, s)[0] == key(s[0]);
        LexLeTransitive(key(y), key(s[0]), key(e));
      }
    }
    PrependLarger(key, e, s);
  }

  /** Past the insertion point: the head stays in front of the rest with `e` inserted. */
  lemma InsertBehind<T>(key: T -> string, e: T, s: seq<T>, rest: seq<T>)
    requires Descending(Keys(key, s)) && |s| > 0
    requires !LexLe(key(s[0]), key(e))
    requires Descending(Keys(key, rest))
    requires multiset(rest) == multiset(s[1..]) + multiset{e}
    ensures Descending(Keys(key, [s[0]] + rest))
  {
    forall y | y in rest ensures LexLe(key(y), key(s[0])) {
      assert y in multiset(rest);
      if y == e {
        LexLeTotal(key(s[0]), key(e));
      } else {
        assert y in multiset(s[1..]);
        var k :| 0 <= k < |s| - 1 && s[1..][k] == y;
        assert s[k + 1] == y;
        assert Keys(key, s)[k + 1] == key(y) && Keys(key, s)[0] == key(s[0]);
      }
    }
    PrependLarger(key, s[0], rest);
  }

  /** Inserts `e` in front of the first element whose key is no larger. */
  function InsertBy<T>(key: T -> string, e: T, s: seq<T>): (r: seq<T>)
    ensures |r| == |s| + 1
  {
    if |s| == 0 then [e]
    else if LexLe(key(s[0]), key(e)) then [e] + s
    else [s[0]] + InsertBy(key, e, s[1..])
  }

  /** Insertion adds exactly one copy of `e`. */
  lemma {:induction false} InsertByAdds<T>(key: T -> string, e: T, s: seq<T>)
    ensures multiset(InsertBy(key, e, s)) == multiset(s) + multiset{e}
  {
    if |s| > 0 && !LexLe(key(s[0]), key(e)) {
      var rest := InsertBy(key, e, s[1..]);
      InsertByAdds(key, e, s[1..]);
      assert s == [s[0]] + s[1..];
      assert multiset(s) == multiset{s[0]} + multiset(s[1..]);
      assert multiset([s[0]] + rest) == multiset{s[0]} + multiset(rest);
    }
  }

  /** Insertion adds exactly one copy of the key of `e`. */
  lemma {:induction false} InsertByAddsKey<T>(key: T -> string, e: T, s: seq<T>)
    ensures multiset(Keys(key, InsertBy(key, e, s))) == multiset(Keys(key, s)) + multiset{key(e)}
  {
    if |s| == 0 || LexLe(key(s[0]), key(e)) {
      KeysCons(key, e, s);
      assert multiset([key(e)] + Keys(key, s)) == multiset{key(e)} + multiset(Keys(key, s));
    } else {
      var rest := InsertBy(key, e, s[1..]);
      InsertByAddsKey(key, e, s[1..]);
      assert s == [s[0]] + s[1..];
      KeysCons(key, s[0], s[1..]);
      KeysCons(key, s[0], rest);
      assert multiset([key(s[0])] + Keys(key, s[1..])) == multiset{key(s[0])} + multiset(Keys(key, s[1..]));
      assert multiset([key(s[0])] + Keys(key, rest)) == multiset{key(s[0])} + multiset(Keys(key, rest));
    }
  }

  /** Insertion into a sequence descending by key keeps it descending. */
  lemma {:induction false} InsertBySorted<T>(key: T -> string, e: T, s: seq<T>)
    requires Descending(Keys(key, s))
    ensures Descending(Keys(key, InsertBy(key, e, s)))
  {
    if |s| == 0 {
      KeysCons(key, e, s);
    } else if LexLe(key(s[0]), key(e)) {
      InsertInFront(key, e, s);
    } else {
      assert Keys(key, s[1..]) == Keys(key, s)[1..];
      DescendingTail(Keys(key, s));
      var rest := InsertBy(key, e, s[1..]);
      InsertBySorted(key, e, s[1..]);
      InsertByAdds(key, e, s[1..]);
      InsertBehind(key, e, s, rest);
    }
  }

  /** `s` sorted in descending key order. */
  function SortBy<T>(key: T -> string, s: seq<T>): (r: seq<T>)
    ensures Descending(Keys(key, r))
    ensures multiset(r) == multiset(s)
    ensures multiset(Keys(key, r)) == multiset(Keys(key, s))
  {
    if |s| == 0 then
      assert Keys(key, s) == [];
      []
    else
      var sorted := SortBy(key, s[1..]);
      InsertBySorted(key, s[0], sorted);
      InsertByAdds(key, s[0], sorted);
      InsertByAddsKey(key, s[0], sorted);
      ConsMultisets(key, s);
      InsertBy(key, s[0], sorted)
  }

  /** The multisets of a non-empty sequence and of its keys, split at the head. */
  lemma ConsMultisets<T>(key: T -> string, s: seq<T>)
    requires |s| > 0
    ensures multiset(s) == multiset{s[0]} + multiset(s[1..])
    ensures multiset(Keys(key, s)) == multiset{key(s[0])} + multiset(Keys(key, s[1..]))
  {
    assert s == [s[0]] + s[1..];
    KeysCons(key, s[0], s[1..]);
  }

  lemma DescendingTail(a: seq<string>)
    requires Descending(a) && |a| > 0
    ensures Descending(a[1..])
  {
    forall i, j | 0 <= i < j < |a| - 1 ensures LexLe(a[1..][j], a[1..][i]) {
      assert a[1..][j] == a[j + 1] && a[1..][i] == a[i + 1];
    }
  }

  /** The head of a descending sequence is its largest element. */
  lemma HeadIsLargest(a: seq<string>, x: string)
    requires Descending(a) && x in a
    ensures LexLe(x, a[0])
  {
    var i :| 0 <= i < |a| && a[i] == x;
    if i == 0 {
      LexLeReflexive(x);
    }
  }

  /** Two descending sequences holding the same strings start alike. */
  lemma HeadsAgree(a: seq<string>, b: seq<string>)
    requires Descending(a) && Descending(b)
    requires multiset(a) == multiset(b) && |a| > 0
    ensures |b| > 0 && a[0] == b[0]
  {
    assert a[0] in multiset(b);
    assert b[0] in multiset(a);
    HeadIsLargest(b, a[0]);
    HeadIsLargest(a, b[0]);
    LexLeAntisymmetric(a[0], b[0]);
  }

  /** Dropping the head removes one copy of it from the multiset. */
  lemma TailMultiset(a: seq<string>)
    requires |a| > 0
    ensures multiset(a[1..]) == multiset(a) - multiset{a[0]}
  {
    assert a == [a[0]] + a[1..];
  }

  /** Two descending sequences holding the same strings are equal: the
      descending order of a collection of strings is unique. */
  lemma {:induction false} DescendingUnique(a: seq<string>, b: seq<string>)
    requires Descending(a) && Descending(b)
    requires multiset(a) == multiset(b)
    ensures a == b
  {
    if |a| == 0 {
      assert |multiset(b)| == 0;
    } else {
      HeadsAgree(a, b);
      TailMultiset(a);
      TailMultiset(b);
      DescendingTail(a);
      DescendingTail(b);
      DescendingUnique(a[1..], b[1..]);
      assert a == [a[0]] + a[1..] && b == [b[0]] + b[1..];
    }
  }
}
