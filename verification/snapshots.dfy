/** The orphan-snapshot sweep of ami-create/main.py:139-174. Snapshots are
    visited in the order `describe_snapshots` lists them. A snapshot is
    deleted when its description carries the `CreateImage` marker, the
    run-wide `do_not_delete` flag is still down, and the AMI named in the
    description is not in `ami_keep_list`.

    The flag starts down once per run and is never lowered again. The
    only thing that raises it is the tag scan of lines 145-154. That scan
    calls `dict.iteritems`, which Python 3 does not have, so the bare
    `except` swallows the error; the model keeps the scan's outcome as one
    boolean per snapshot, `tagsRaiseFlag`. */
module Snapshots {
  import opened Options
  import opened Text

  /** A snapshot as `describe_snapshots` reports it. */
  datatype Snapshot = Snapshot(snapshotId: string, description: string, tagsRaiseFlag: bool)

  /** The description marker that makes a snapshot a candidate. */
  const CreateImageMarker: string := "Created by CreateImage"

  /** The literal part of the pattern `ami-.*`. */
  const AmiPrefix: string := "ami-"

  /** `ami_parent` when the description names no AMI. */
  const NoParent: string := " "

  /** The first piece of `s.split(sep)` is a prefix of `s` without the
      separator, and is followed in `s` by the separator or by nothing. */
  lemma {:induction false} FirstPieceIsMaximal(s: string, sep: char)
    ensures Split(s, sep)[0] <= s
    ensures |Split(s, sep)[0]| == |s| || s[|Split(s, sep)[0]|] == sep
  {
    if |s| > 0 {
      FirstPieceIsMaximal(s[1..], sep);
    }
  }

  /** A separator-free prefix of `s` is a prefix of the first piece. */
  lemma PrefixOfFirstPiece(s: string, sep: char, q: string)
    requires q <= s && sep !in q
    ensures q <= Split(s, sep)[0]
  {
    FirstPieceIsMaximal(s, sep);
  }

  /** The first word of the first line of `s`. */
  function FirstWordOfLine(s: string): string
  {
    Split(Split(s, '\n')[0], ' ')[0]
  }

  /** The first word of the first line is a prefix of `s` free of spaces
      and line breaks, ends where `s` does or at a space or line break,
      and extends every prefix of `s` free of both. */
  lemma FirstWordOfLineFacts(s: string, q: string)
    requires q <= s && ' ' !in q && '\n' !in q
    ensures var w := FirstWordOfLine(s);
      && q <= w && w <= s
      && ' ' !in w && '\n' !in w
      && (|w| == |s| || s[|w|] == ' ' || s[|w|] == '\n')
  {
    var line := Split(s, '\n')[0];
    var w := Split(line, ' ')[0];
    FirstPieceIsMaximal(s, '\n');
    FirstPieceIsMaximal(line, ' ');
    PrefixOfFirstPiece(s, '\n', q);
    PrefixOfFirstPiece(line, ' ', q);
    assert forall i :: 0 <= i < |w| ==> w[i] == line[i];
  }

  /** `re.search("ami-.*", d).group().split(" ")[0]`, or `" "` when the
      description has no `ami-`: the match runs from the leftmost `ami-`
      to the end of its line, and the parent is its first word. */
  function ParentImage(d: string): (r: string)
    ensures IndexOf(d, AmiPrefix).None? <==> r == NoParent
    ensures IndexOf(d, AmiPrefix).Some? ==>
      var j := IndexOf(d, AmiPrefix).value;
      && AmiPrefix <= r && r <= d[j..]
      && ' ' !in r && '\n' !in r
      && (|r| == |d| - j || d[j + |r|] == ' ' || d[j + |r|] == '\n')
  {
    match IndexOf(d, AmiPrefix)
    case None => NoParent
    case Some(j) =>
      assert AmiPrefix <= d[j..];
      FirstWordOfLineFacts(d[j..], AmiPrefix);
      FirstWordOfLine(d[j..])
  }

  /** The snapshot is a candidate and its parent AMI is not kept: the
      test at lines 156 and 162, apart from the flag. */
  predicate Orphan(s: Snapshot, keep: seq<string>)
  {
    Contains(s.description, CreateImageMarker) && ParentImage(s.description) !in keep
  }

  /** One of the first `i + 1` flags is up. */
  predicate RaisedBy(raises: seq<bool>, i: int)
  {
    exists j :: 0 <= j <= i && j < |raises| && raises[j]
  }

  /** The tag-scan outcome of each snapshot, in listing order. */
  function Raises(snaps: seq<Snapshot>): (r: seq<bool>)
    ensures |r| == |snaps|
    ensures forall i :: 0 <= i < |snaps| ==> r[i] == snaps[i].tagsRaiseFlag
  {
    seq(|snaps|, i requires 0 <= i < |snaps| => snaps[i].tagsRaiseFlag)
  }

  /** Whether each snapshot is an orphan, in listing order. */
  function Orphans(snaps: seq<Snapshot>, keep: seq<string>): (r: seq<bool>)
    ensures |r| == |snaps|
    ensures forall i :: 0 <= i < |snaps| ==> r[i] == Orphan(snaps[i], keep)
  {
    seq(|snaps|, i requires 0 <= i < |snaps| => Orphan(snaps[i], keep))
  }

  /** The loop of lines 141-171 over the snapshots' orphan tests and
      tag-scan outcomes, with the flag `flag` on entry. Each snapshot's
      tags are scanned before its own test, so the snapshot that raises
      the flag is already spared. */
  function Sweep(orphan: seq<bool>, raises: seq<bool>, flag: bool): (r: seq<bool>)
    requires |orphan| == |raises|
    ensures |r| == |orphan|
  {
    if |orphan| == 0 then []
    else
      var raised := flag || raises[0];
      [orphan[0] && !raised] + Sweep(orphan[1..], raises[1..], raised)
  }

  /** An entry is deleted exactly when it is an orphan and the flag was
      down on entry and raised by none of the entries up to it. */
  lemma {:induction false} SweepDeletes(orphan: seq<bool>, raises: seq<bool>, flag: bool)
    requires |orphan| == |raises|
    ensures forall i :: 0 <= i < |orphan| ==>
      (Sweep(orphan, raises, flag)[i] <==> orphan[i] && !flag && !RaisedBy(raises, i))
  {
    if |orphan| > 0 {
      var raised := flag || raises[0];
      var r := Sweep(orphan, raises, flag);
      var rest := Sweep(orphan[1..], raises[1..], raised);
      SweepDeletes(orphan[1..], raises[1..], raised);
      assert r == [orphan[0] && !raised] + rest;
      assert RaisedBy(raises, 0) <==> raises[0];
      forall i | 1 <= i < |orphan|
        ensures r[i] <==> orphan[i] && !flag && !RaisedBy(raises, i)
      {
        RaisedShift(raises, i);
        assert r[i] == rest[i - 1];
        assert orphan[1..][i - 1] == orphan[i];
      }
    }
  }

  /** The flag is up after `i + 1` entries exactly when the first raised
      it or one of the next `i` did. */
  lemma RaisedShift(raises: seq<bool>, i: int)
    requires 1 <= i < |raises|
    ensures RaisedBy(raises, i) <==> raises[0] || RaisedBy(raises[1..], i - 1)
  {
    if RaisedBy(raises, i) {
      var j :| 0 <= j <= i && j < |raises| && raises[j];
      assert j == 0 || raises[1..][j - 1] == raises[j];
    }
    if RaisedBy(raises[1..], i - 1) {
      var j :| 0 <= j <= i - 1 && j < |raises[1..]| && raises[1..][j];
      assert raises[j + 1] == raises[1..][j];
    }
  }

  /** The deletion decisions of one run: the flag starts down, and a
      snapshot is deleted exactly when its description has the marker,
      no snapshot up to and including it raised the flag, and its parent
      is not kept. */
  function DeleteMask(snaps: seq<Snapshot>, keep: seq<string>): (r: seq<bool>)
    ensures |r| == |snaps|
    ensures forall i :: 0 <= i < |snaps| ==>
      (r[i] <==> Contains(snaps[i].description, CreateImageMarker)
                 && !RaisedBy(Raises(snaps), i)
                 && ParentImage(snaps[i].description) !in keep)
  {
    var orphan := Orphans(snaps, keep);
    var raises := Raises(snaps);
    SweepDeletes(orphan, raises, false);
    Sweep(orphan, raises, false)
  }

  /** The ids of the snapshots the run deletes, in listing order. */
  function DeletedIds(snaps: seq<Snapshot>, mask: seq<bool>): (r: seq<string>)
    requires |mask| == |snaps|
    ensures forall x :: x in r <==> exists i :: 0 <= i < |snaps| && mask[i] && snaps[i].snapshotId == x
  {
    if |snaps| == 0 then []
    else
      assert forall i :: 1 <= i < |snaps| ==> snaps[i] == snaps[1..][i - 1] && mask[i] == mask[1..][i - 1];
      (if mask[0] then [snaps[0].snapshotId] else []) + DeletedIds(snaps[1..], mask[1..])
  }

  /** Once a snapshot's tags raise the flag, neither it nor any later
      snapshot is deleted. */
  lemma FlagIsSticky(snaps: seq<Snapshot>, keep: seq<string>, j: nat, i: nat)
    requires j <= i < |snaps| && snaps[j].tagsRaiseFlag
    ensures !DeleteMask(snaps, keep)[i]
  {
    assert Raises(snaps)[j];
  }

  /** A snapshot whose parent AMI is kept is never deleted, whatever the
      flag. */
  lemma KeptParentSurvives(snaps: seq<Snapshot>, keep: seq<string>, i: nat)
    requires i < |snaps| && ParentImage(snaps[i].description) in keep
    ensures !DeleteMask(snaps, keep)[i]
  {
  }

  /** When no tag scan raises the flag, which is every run under Python 3,
      a snapshot is deleted exactly when it is an orphan. */
  lemma DeletedIffOrphan(snaps: seq<Snapshot>, keep: seq<string>, i: nat)
    requires forall j :: 0 <= j < |snaps| ==> !snaps[j].tagsRaiseFlag
    requires i < |snaps|
    ensures DeleteMask(snaps, keep)[i] <==> Orphan(snaps[i], keep)
  {
  }

  /** A description without `ami-` gives the parent `" "`, so such a
      marked snapshot is deleted unless `" "` is in the keep list. */
  lemma NoAmiMeansDeleted(snaps: seq<Snapshot>, keep: seq<string>, i: nat)
    requires forall j :: 0 <= j < |snaps| ==> !snaps[j].tagsRaiseFlag
    requires i < |snaps| && Contains(snaps[i].description, CreateImageMarker)
    requires IndexOf(snaps[i].description, AmiPrefix).None? && NoParent !in keep
    ensures DeleteMask(snaps, keep)[i]
  {
  }
}
