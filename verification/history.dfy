/** The per-instance AMI history: each attributed image becomes the string
    `"<date> <ami-id>"` (ami-create/main.py:74), the list is sorted in
    descending string order (line 81), and its first element names the
    newest image (line 87).

    An entry is kept here as the pair it is rendered from; `Render` gives
    the string the source stores, and every comparison is made on that
    string. */
module AmiHistory {
  import opened Options
  import opened Text
  import opened Clock
  import opened Sorting

  datatype Entry = Entry(date: Stamp, imageId: string)

  /** `"{} {}".format(image_date, image.image_id)`. */
  function Render(e: Entry): string
  {
    Format(e.date) + ([' '] + e.imageId)
  }

  /** The rendered entry splits on spaces into the date and then the
      pieces of the image id. */
  lemma RenderSplit(e: Entry)
    ensures Split(Render(e), ' ') == [Format(e.date)] + Split(e.imageId, ' ')
  {
    assert Render(e) == Format(e.date) + [' '] + e.imageId;
    SplitAfterPiece(Format(e.date), ' ', e.imageId);
  }

  /** `entry.split(" ")[0]`: the date the entry was rendered from. */
  function DateToken(e: Entry): (r: string)
    ensures r == Format(e.date)
    ensures Token(Render(e), ' ', 0) == Some(r)
  {
    RenderSplit(e);
    Split(Render(e), ' ')[0]
  }

  /** The first space-separated piece of a string is a prefix of it, and
      is all of it when there is no space. */
  lemma FirstPiece(id: string)
    ensures Split(id, ' ')[0] <= id
    ensures ' ' !in id ==> Split(id, ' ')[0] == id
  {
    if ' ' !in id {
      SplitNoSeparator(id, ' ');
    }
    JoinSplit(id, ' ');
    var pieces := Split(id, ' ');
    assert |pieces| == 1 || Join(pieces, ' ') == pieces[0] + [' '] + Join(pieces[1..], ' ');
  }

  /** `entry.split(" ")[1]`: the image id, cut at its first space if it
      has one. */
  function ImageToken(e: Entry): (r: string)
    ensures Token(Render(e), ' ', 1) == Some(r)
    ensures ' ' !in e.imageId ==> r == e.imageId
    ensures r <= e.imageId
  {
    RenderSplit(e);
    FirstPiece(e.imageId);
    Split(Render(e), ' ')[1]
  }

  /** Comparing two rendered entries compares their dates first: a
      rendered entry no greater than another is no later in time. */
  lemma RenderOrder(e: Entry, f: Entry)
    requires LexLe(Render(e), Render(f))
    ensures Seconds(e.date) <= Seconds(f.date)
  {
    LexLePrefix(Format(e.date), [' '] + e.imageId, Format(f.date), [' '] + f.imageId);
    FormatOrder(e.date, f.date);
    FormatIsChronological(e.date, f.date);
  }

  /** Distinct entries render to distinct strings. */
  lemma RenderInjective(e: Entry, f: Entry)
    requires Render(e) == Render(f)
    ensures e == f
  {
    var re, rf := Render(e), Render(f);
    assert re[..19] == Format(e.date) && rf[..19] == Format(f.date);
    FormatOrder(e.date, f.date);
    assert re[20..] == e.imageId && rf[20..] == f.imageId;
  }

  // ---------------------------------------------------------------------
  // value.sort(reverse=True)
  // ---------------------------------------------------------------------

  /** The history sorted newest first: the order `sort(reverse=True)`
      leaves the rendered strings in. */
  function SortNewestFirst(s: seq<Entry>): (r: seq<Entry>)
    ensures Descending(Keys(Render, r))
    ensures multiset(r) == multiset(s)
  {
    SortBy(Render, s)
  }

  /** Whatever algorithm puts the rendered strings into descending order
      (Python's sort among them) produces exactly the rendering of
      `SortNewestFirst`. */
  lemma SortIsCanonical(s: seq<Entry>, sorted: seq<string>)
    requires Descending(sorted)
    requires multiset(sorted) == multiset(Keys(Render, s))
    ensures sorted == Keys(Render, SortNewestFirst(s))
  {
    DescendingUnique(sorted, Keys(Render, SortNewestFirst(s)));
  }

  /** The first entry after the sort is in the history, and no entry of
      the history is later. */
  lemma NewestBoundsAll(s: seq<Entry>)
    requires |s| > 0
    ensures |SortNewestFirst(s)| > 0 && SortNewestFirst(s)[0] in s
    ensures forall e :: e in s ==> Seconds(e.date) <= Seconds(SortNewestFirst(s)[0].date)
  {
    var r := SortNewestFirst(s);
    assert |r| == |multiset(r)| == |multiset(s)| == |s|;
    assert r[0] in multiset(s);
    forall e | e in s
      ensures Seconds(e.date) <= Seconds(r[0].date)
    {
      NewestIsFirst(s, e);
    }
  }

  /** After the sort the first entry carries the latest date in the history. */
  lemma NewestIsFirst(s: seq<Entry>, e: Entry)
    requires e in s
    ensures |SortNewestFirst(s)| > 0
    ensures Seconds(e.date) <= Seconds(SortNewestFirst(s)[0].date)
  {
    var r := SortNewestFirst(s);
    assert e in multiset(r);
    var i :| 0 <= i < |r| && r[i] == e;
    if i > 0 {
      assert Keys(Render, r)[i] == Render(r[i]) && Keys(Render, r)[0] == Render(r[0]);
      RenderOrder(r[i], r[0]);
    }
  }

  /** No image id occurs twice in `h`. */
  predicate DistinctIds(h: seq<Entry>)
  {
    forall a, b :: 0 <= a < |h| && 0 <= b < |h| && a != b ==> h[a].imageId != h[b].imageId
  }

  /** Reordering a history whose image ids are distinct keeps them
      distinct; in particular the sort does. */
  lemma {:induction false} ReorderKeepsDistinct(s: seq<Entry>, r: seq<Entry>)
    requires multiset(r) == multiset(s)
    requires DistinctIds(s)
    ensures DistinctIds(r)
    decreases |r|
  {
    if |r| > 0 {
      assert r[0] in multiset(s);
      var i :| 0 <= i < |s| && s[i] == r[0];
      var s' := RemoveAt(s, i);
      var t := r[1..];
      assert multiset(t) == multiset(s') by {
        assert r == [r[0]] + t;
        RemoveAtCount(s, i);
      }
      RemoveAtDistinct(s, i);
      ReorderKeepsDistinct(s', t);
      assert forall f :: f in t ==> r[0].imageId != f.imageId by {
        assert forall f :: f in t ==> f in multiset(s');
      }
      ConsDistinct(r[0], t);
      assert r == [r[0]] + t;
    }
  }

  /** An entry whose id differs from every id of a distinct history can be
      put in front of it. */
  lemma ConsDistinct(x: Entry, t: seq<Entry>)
    requires DistinctIds(t)
    requires forall f :: f in t ==> x.imageId != f.imageId
    ensures DistinctIds([x] + t)
  {
    var h := [x] + t;
    forall a, b | 0 <= a < |h| && 0 <= b < |h| && a != b
      ensures h[a].imageId != h[b].imageId
    {
      if a == 0 {
        assert h[b] == t[b - 1];
      } else if b == 0 {
        assert h[a] == t[a - 1];
      } else {
        assert h[a] == t[a - 1] && h[b] == t[b - 1];
      }
    }
  }

  /** `s` without its entry at index `i`. */
  function RemoveAt(s: seq<Entry>, i: nat): (r: seq<Entry>)
    requires i < |s|
  {
    s[..i] + s[i + 1..]
  }

  /** Removing an entry drops one copy of it. */
  lemma RemoveAtCount(s: seq<Entry>, i: nat)
    requires i < |s|
    ensures multiset(RemoveAt(s, i)) == multiset(s) - multiset{s[i]}
  {
    assert s == s[..i] + [s[i]] + s[i + 1..];
  }

  /** Removing an entry shifts the later entries down by one. */
  lemma RemoveAtShift(s: seq<Entry>, i: nat)
    requires i < |s|
    ensures |RemoveAt(s, i)| == |s| - 1
    ensures forall j :: 0 <= j < |s| - 1 ==> RemoveAt(s, i)[j] == s[if j < i then j else j + 1]
  {
  }

  /** Removing an entry keeps the ids distinct, and none of the entries
      left carries the removed entry's id. */
  lemma RemoveAtDistinct(s: seq<Entry>, i: nat)
    requires i < |s| && DistinctIds(s)
    ensures DistinctIds(RemoveAt(s, i))
    ensures forall f :: f in RemoveAt(s, i) ==> f.imageId != s[i].imageId
  {
    var r := RemoveAt(s, i);
    RemoveAtShift(s, i);
    forall f | f in r
      ensures f.imageId != s[i].imageId
    {
      var j :| 0 <= j < |r| && r[j] == f;
      assert f == s[if j < i then j else j + 1];
    }
    forall a, b | 0 <= a < |r| && 0 <= b < |r| && a != b
      ensures r[a].imageId != r[b].imageId
    {
      var a' := if a < i then a else a + 1;
      var b' := if b < i then b else b + 1;
      assert r[a] == s[a'] && r[b] == s[b'];
    }
  }
}
