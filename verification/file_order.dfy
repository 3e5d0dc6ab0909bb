/**
  The candidate files of a star-trail job, reduced to what the job looks at:
  the byte size and modification time reported by the file system, and the
  frame the image decoder returns for them (`None` when it cannot read them).
 */
module FileOrder {
  import opened Basics
  import opened Frames
  import opened Seqs

  datatype FileEntry = FileEntry(size: nat, mtime: real, decoded: Option<Frame>)

  predicate IsNonEmpty(e: FileEntry) {
    e.size != 0
  }

  predicate IsReadable(e: FileEntry) {
    e.decoded.Some?
  }

  /** A file that is both non-empty and decodable, so that its frame reaches the generator. */
  predicate IsUsable(e: FileEntry) {
    e.size != 0 && e.decoded.Some?
  }

  /** Ascending by modification time. */
  predicate Sorted(s: seq<FileEntry>) {
    forall i, j :: 0 <= i < j < |s| ==> s[i].mtime <= s[j].mtime
  }

  /** The entries of `s` whose modification time is exactly `t`, in their order in `s`. */
  function WithMtime(s: seq<FileEntry>, t: real): seq<FileEntry> {
    if |s| == 0 then []
    else if s[0].mtime == t then [s[0]] + WithMtime(s[1..], t)
    else WithMtime(s[1..], t)
  }

  /** `WithMtime` keeps exactly the entries stamped `t`. */
  lemma {:induction false} WithMtimeMembers(s: seq<FileEntry>, t: real)
    ensures forall e :: e in WithMtime(s, t) <==> e in s && e.mtime == t
  {
    if |s| > 0 {
      WithMtimeMembers(s[1..], t);
      assert s == [s[0]] + s[1..];
    }
  }

  /** Places `e` in front of the first entry of `s` that is not older than it. */
  function Insert(e: FileEntry, s: seq<FileEntry>): (r: seq<FileEntry>)
    requires Sorted(s)
    ensures Sorted(r)
    ensures multiset(r) == multiset(s) + multiset{e}
  {
    if |s| == 0 then [e]
    else if e.mtime <= s[0].mtime then
      SortedCons(e, s);
      [e] + s
    else
      var rest := Insert(e, s[1..]);
      assert s == [s[0]] + s[1..];
      forall k | 0 <= k < |rest| ensures s[0].mtime <= rest[k].mtime {
        assert rest[k] in multiset(s[1..]) + multiset{e};
      }
      SortedCons(s[0], rest);
      [s[0]] + rest
  }

  lemma SortedCons(x: FileEntry, s: seq<FileEntry>)
    requires Sorted(s) && forall k :: 0 <= k < |s| ==> x.mtime <= s[k].mtime
    ensures Sorted([x] + s)
  {
    assert forall k :: 1 <= k <= |s| ==> ([x] + s)[k] == s[k - 1];
  }

  /**
    Python's `sorted(..., key=mtime)`: a stable sort. The result is ascending
    by modification time and holds exactly the entries of `s`.
   */
  function SortByMtime(s: seq<FileEntry>): (r: seq<FileEntry>)
    ensures Sorted(r)
    ensures multiset(r) == multiset(s)
  {
    if |s| == 0 then []
    else
      assert s == [s[0]] + s[1..];
      Insert(s[0], SortByMtime(s[1..]))
  }

  lemma {:induction false} InsertWithMtime(e: FileEntry, s: seq<FileEntry>, t: real)
    requires Sorted(s)
    ensures WithMtime(Insert(e, s), t) == if e.mtime == t then [e] + WithMtime(s, t) else WithMtime(s, t)
  {
    if |s| > 0 && e.mtime > s[0].mtime {
      InsertWithMtime(e, s[1..], t);
    }
  }

  /**
    The sort is stable: entries with equal modification times keep the order
    they had in the input.
   */
  lemma {:induction false} SortStable(s: seq<FileEntry>, t: real)
    ensures WithMtime(SortByMtime(s), t) == WithMtime(s, t)
  {
    if |s| > 0 {
      SortStable(s[1..], t);
      InsertWithMtime(s[0], SortByMtime(s[1..]), t);
    }
  }

  /** Filtering an ascending list leaves it ascending. */
  lemma {:induction false} FilterSorted(p: FileEntry -> bool, s: seq<FileEntry>)
    requires Sorted(s)
    ensures Sorted(Filter(p, s))
  {
    if |s| > 0 {
      FilterSorted(p, s[1..]);
      assert forall e :: e in Filter(p, s[1..]) ==> s[0].mtime <= e.mtime by {
        forall e | e in Filter(p, s[1..]) ensures s[0].mtime <= e.mtime {
          var j :| 0 <= j < |s[1..]| && s[1..][j] == e;
          assert s[j + 1] == e;
        }
      }
    }
  }

  /**
    The files a job reads, in the order it reads them: the non-empty files,
    sorted ascending by modification time, without those that do not decode.
   */
  function ReadOrder(files: seq<FileEntry>): (r: seq<FileEntry>)
    ensures Sorted(r)
    ensures multiset(r) == multiset(Filter(IsUsable, files))
    ensures forall e :: e in r <==> e in files && e.size != 0 && e.decoded.Some?
  {
    FilterSorted(IsReadable, SortByMtime(Filter(IsNonEmpty, files)));
    ReadOrderMultiset(files);
    Filter(IsReadable, SortByMtime(Filter(IsNonEmpty, files)))
  }

  lemma ReadOrderMultiset(files: seq<FileEntry>)
    ensures multiset(Filter(IsReadable, SortByMtime(Filter(IsNonEmpty, files)))) == multiset(Filter(IsUsable, files))
    ensures forall e :: e in Filter(IsReadable, SortByMtime(Filter(IsNonEmpty, files))) <==> e in files && IsUsable(e)
  {
    var nonEmpty := Filter(IsNonEmpty, files);
    var ordered := SortByMtime(nonEmpty);
    var r := Filter(IsReadable, ordered);
    var usable := Filter(IsUsable, files);
    FilterMultiset(IsReadable, ordered);
    FilterMultiset(IsNonEmpty, files);
    FilterMultiset(IsUsable, files);
    forall e ensures multiset(r)[e] == multiset(usable)[e] {
      assert multiset(ordered)[e] == multiset(nonEmpty)[e];
    }
    assert multiset(r) == multiset(usable);
    forall e ensures e in r <==> e in usable {
      assert e in r <==> e in multiset(r);
      assert e in usable <==> e in multiset(usable);
    }
  }

  /**
    The read order keeps Python's sort stable: files with equal modification
    times are read in the order they were listed, so which of them reaches the
    generator first (and fixes the buffer) is determined.
   */
  lemma ReadOrderStable(files: seq<FileEntry>, t: real)
    ensures WithMtime(ReadOrder(files), t) == WithMtime(Filter(IsUsable, files), t)
  {
    var nonEmpty := Filter(IsNonEmpty, files);
    calc {
      WithMtime(ReadOrder(files), t);
      WithMtime(Filter(IsReadable, SortByMtime(nonEmpty)), t);
      { WithMtimeFilter(IsReadable, SortByMtime(nonEmpty), t); }
      Filter(IsReadable, WithMtime(SortByMtime(nonEmpty), t));
      { SortStable(nonEmpty, t); }
      Filter(IsReadable, WithMtime(nonEmpty, t));
      { WithMtimeFilter(IsNonEmpty, files, t); }
      Filter(IsReadable, Filter(IsNonEmpty, WithMtime(files, t)));
      { FilterReadableNonEmpty(WithMtime(files, t)); }
      Filter(IsUsable, WithMtime(files, t));
      { WithMtimeFilter(IsUsable, files, t); }
      WithMtime(Filter(IsUsable, files), t);
    }
  }

  /** Selecting one modification time commutes with any filter. */
  lemma {:induction false} WithMtimeFilter(p: FileEntry -> bool, s: seq<FileEntry>, t: real)
    ensures WithMtime(Filter(p, s), t) == Filter(p, WithMtime(s, t))
    decreases |s|
  {
    if |s| > 0 {
      WithMtimeFilter(p, s[1..], t);
      var rest := Filter(p, s[1..]);
      var restT := WithMtime(s[1..], t);
      assert ([s[0]] + rest)[1..] == rest;
      assert ([s[0]] + restT)[1..] == restT;
    }
  }

  /** Dropping empty files and then undecodable ones leaves exactly the usable files. */
  lemma {:induction false} FilterReadableNonEmpty(s: seq<FileEntry>)
    ensures Filter(IsReadable, Filter(IsNonEmpty, s)) == Filter(IsUsable, s)
    decreases |s|
  {
    if |s| > 0 {
      FilterReadableNonEmpty(s[1..]);
      var rest := Filter(IsNonEmpty, s[1..]);
      assert ([s[0]] + rest)[1..] == rest;
    }
  }

  /** The decoded frames of entries that all decoded, in the same order. */
  function FramesOf(s: seq<FileEntry>): (r: seq<Frame>)
    requires forall k :: 0 <= k < |s| ==> s[k].decoded.Some?
    ensures |r| == |s| && forall k :: 0 <= k < |s| ==> s[k].decoded == Some(r[k])
  {
    seq(|s|, k requires 0 <= k < |s| => s[k].decoded.value)
  }
}
