/** What readDir promises (hw1_tree/main.go:60-83), stated about its
    specification `Builder.Read` and proved against an independent
    reference: `NodesOf`, the kept entries' nodes in listing order. */
module BuilderLemmas {
  import opened Names
  import opened Nodes
  import opened Builder

  /** The nodes of the kept entries of `es`, in the order of `es`. */
  function NodesOf(es: seq<Entry>, printFiles: bool): seq<Node>
  {
    if es == [] then []
    else
      var e := es[|es| - 1];
      NodesOf(es[..|es| - 1], printFiles) + (if Kept(e, printFiles) then [NodeOf(e, printFiles)] else [])
  }

  /** What a real filesystem and `ioutil.ReadDir` produce, at every depth:
      a failed listing has no entries, and no directory holds two entries
      of one name. */
  predicate WellFormed(l: Listing)
    decreases l
  {
    && (l.failed ==> l.entries == [])
    && DistinctNames(l.entries)
    && forall e :: e in l.entries && e.isDir ==> WellFormed(e.contents)
  }

  // ---------------------------------------------------------------------
  // NodesOf
  // ---------------------------------------------------------------------

  lemma {:induction false} NodesOfAppend(a: seq<Entry>, b: seq<Entry>, printFiles: bool)
    ensures NodesOf(a + b, printFiles) == NodesOf(a, printFiles) + NodesOf(b, printFiles)
  {
    if b == [] {
      assert a + b == a;
    } else {
      var front, last := b[..|b| - 1], b[|b| - 1];
      NodesOfAppend(a, front, printFiles);
      assert (a + b)[..|a + b| - 1] == a + front;
    }
  }

  /** A node is produced exactly when some kept entry of `es` becomes it. */
  lemma {:induction false} NodesOfMember(es: seq<Entry>, printFiles: bool, m: Node)
    ensures m in NodesOf(es, printFiles) <==> exists e :: e in es && Kept(e, printFiles) && NodeOf(e, printFiles) == m
  {
    if es != [] {
      var front, last := es[..|es| - 1], es[|es| - 1];
      NodesOfMember(front, printFiles, m);
      assert es == front + [last];
      if m in NodesOf(front, printFiles) {
        var e :| e in front && Kept(e, printFiles) && NodeOf(e, printFiles) == m;
        assert e in es;
      } else if Kept(last, printFiles) && m == NodeOf(last, printFiles) {
        assert last in es;
      } else {
        forall e | e in es && Kept(e, printFiles)
          ensures NodeOf(e, printFiles) != m
        {
          if e != last {
            assert e in front;
          }
        }
      }
    }
  }

  /** With files printed, every entry yields exactly one node. */
  lemma {:induction false} NodesOfAllKept(es: seq<Entry>)
    ensures |NodesOf(es, true)| == |es|
  {
    if es != [] {
      NodesOfAllKept(es[..|es| - 1]);
    }
  }

  lemma {:induction false} NodesOfInsert(x: Entry, s: seq<Entry>, printFiles: bool)
    ensures multiset(NodesOf(Insert(x, s), printFiles))
         == multiset(NodesOf(s, printFiles)) + multiset(NodesOf([x], printFiles))
  {
    if s != [] {
      var front, last := s[..|s| - 1], s[|s| - 1];
      if Less(x.name, last.name) {
        var r := Insert(x, front);
        NodesOfInsert(x, front, printFiles);
        assert (r + [last])[..|r + [last]| - 1] == r;
      } else {
        assert (s + [x])[..|s + [x]| - 1] == s;
      }
    }
  }

  /** Sorting does not add, drop or duplicate any node. */
  lemma {:induction false} NodesOfSort(es: seq<Entry>, printFiles: bool)
    ensures multiset(NodesOf(SortByName(es), printFiles)) == multiset(NodesOf(es, printFiles))
  {
    if es != [] {
      var front, last := es[..|es| - 1], es[|es| - 1];
      NodesOfSort(front, printFiles);
      NodesOfInsert(last, SortByName(front), printFiles);
    }
  }

  /** Kept entries in strictly ascending name order give ascending nodes. */
  lemma {:induction false} NodesOfAscending(es: seq<Entry>, printFiles: bool)
    requires StrictlySorted(es)
    ensures Ascending(NodesOf(es, printFiles))
  {
    if es != [] {
      var front, last := es[..|es| - 1], es[|es| - 1];
      NodesOfAscending(front, printFiles);
      var done := NodesOf(front, printFiles);
      if Kept(last, printFiles) {
        forall m | m in done
          ensures Less(m.name, last.name)
        {
          NodesOfMember(front, printFiles, m);
          var e :| e in front && Kept(e, printFiles) && NodeOf(e, printFiles) == m;
          var k :| 0 <= k < |front| && front[k] == e;
          assert es[k] == e;
        }
        var t := done + [NodeOf(last, printFiles)];
        forall i, j | 0 <= i < j < |t|
          ensures Less(t[i].name, t[j].name)
        {
          if j == |done| {
            assert t[i] in done;
          } else {
            assert t[i] == done[i] && t[j] == done[j];
          }
        }
      }
    }
  }

  // ---------------------------------------------------------------------
  // Read against NodesOf
  // ---------------------------------------------------------------------

  lemma {:induction false} CollectUpToIsNodesOf(l: Listing, i: nat, printFiles: bool)
    requires i <= |l.entries|
    ensures CollectUpTo(l, i, printFiles) == NodesOf(SortByName(l.entries)[..i], printFiles)
  {
    if i > 0 {
      CollectUpToIsNodesOf(l, i - 1, printFiles);
      var s := SortByName(l.entries);
      assert s[..i][..i - 1] == s[..i - 1];
    }
  }

  /** readDir's nodes are the kept entries' nodes, in sorted entry order. */
  lemma ReadIsSortedNodesOf(l: Listing, printFiles: bool)
    ensures Read(l, printFiles).nodes == NodesOf(SortByName(l.entries), printFiles)
  {
    CollectUpToIsNodesOf(l, |l.entries|, printFiles);
    assert SortByName(l.entries)[..|l.entries|] == SortByName(l.entries);
  }

  /** Exactly one node for every kept entry and nothing else: the result
      is a permutation of the listing's nodes in listing order. */
  lemma ReadIsPermutation(l: Listing, printFiles: bool)
    ensures multiset(Read(l, printFiles).nodes) == multiset(NodesOf(l.entries, printFiles))
  {
    ReadIsSortedNodesOf(l, printFiles);
    NodesOfSort(l.entries, printFiles);
  }

  /** A node is listed iff it is the node of a kept entry of the listing. */
  lemma ReadMember(l: Listing, printFiles: bool, m: Node)
    ensures m in Read(l, printFiles).nodes
        <==> exists e :: e in l.entries && Kept(e, printFiles) && NodeOf(e, printFiles) == m
  {
    ReadIsPermutation(l, printFiles);
    assert m in Read(l, printFiles).nodes <==> m in multiset(NodesOf(l.entries, printFiles));
    NodesOfMember(l.entries, printFiles, m);
  }

  /** Every subdirectory, empty or not, is listed whatever `printFiles` is,
      with its own listing read below it. */
  lemma DirectoryAlwaysListed(l: Listing, printFiles: bool, e: Entry)
    requires e in l.entries && e.isDir
    ensures Directory(e.name, Read(e.contents, printFiles).nodes) in Read(l, printFiles).nodes
  {
    ReadMember(l, printFiles, NodeOf(e, printFiles));
  }

  /** A file entry is listed, with its name and size, iff files are printed. */
  lemma FileListedIffPrinted(l: Listing, printFiles: bool, e: Entry)
    requires e in l.entries && !e.isDir
    ensures File(e.name, e.size) in Read(l, printFiles).nodes <==> printFiles
  {
    ReadMember(l, printFiles, File(e.name, e.size));
    if !printFiles {
      assert forall d :: d in l.entries && Kept(d, printFiles) ==> NodeOf(d, printFiles).Directory?;
    }
  }

  /** With files printed, the listing has exactly as many nodes as entries. */
  lemma ReadCountWithFiles(l: Listing)
    ensures |Read(l, true).nodes| == |l.entries|
  {
    ReadIsPermutation(l, true);
    assert |multiset(Read(l, true).nodes)| == |multiset(NodesOf(l.entries, true))|;
    NodesOfAllKept(l.entries);
  }

  /** Without files, no file node appears at any depth. */
  lemma {:induction false} ReadWithoutFiles(l: Listing)
    ensures DirectoriesOnly(Read(l, false).nodes)
    decreases l
  {
    var nodes := Read(l, false).nodes;
    forall i | 0 <= i < |nodes|
      ensures nodes[i].Directory? && DirectoriesOnly(nodes[i].children)
    {
      ReadMember(l, false, nodes[i]);
      var e :| e in l.entries && Kept(e, false) && NodeOf(e, false) == nodes[i];
      ReadWithoutFiles(e.contents);
    }
  }

  /** Siblings come out in strictly ascending name order at every depth. */
  lemma {:induction false} ReadDeepAscending(l: Listing, printFiles: bool)
    requires WellFormed(l)
    ensures DeepAscending(Read(l, printFiles).nodes)
    decreases l
  {
    var nodes := Read(l, printFiles).nodes;
    ReadIsSortedNodesOf(l, printFiles);
    SortStrictlySorted(l.entries);
    NodesOfAscending(SortByName(l.entries), printFiles);
    forall i | 0 <= i < |nodes| && nodes[i].Directory?
      ensures DeepAscending(nodes[i].children)
    {
      ReadMember(l, printFiles, nodes[i]);
      var e :| e in l.entries && Kept(e, printFiles) && NodeOf(e, printFiles) == nodes[i];
      ReadDeepAscending(e.contents, printFiles);
    }
  }

  /** Only the listing's own error is reported: a subdirectory whose listing
      fails is still listed, with what its listing returned, and the failure
      does not reach the caller. */
  lemma NestedErrorDropped(l: Listing, printFiles: bool, e: Entry)
    requires e in l.entries && e.isDir && e.contents.failed
    ensures Read(l, printFiles).failed == l.failed
    ensures Directory(e.name, Read(e.contents, printFiles).nodes) in Read(l, printFiles).nodes
  {
    DirectoryAlwaysListed(l, printFiles, e);
  }

  /** In a well-formed tree, such a subdirectory is listed as an empty
      directory. */
  lemma FailedDirectoryEmpty(l: Listing, printFiles: bool, e: Entry)
    requires WellFormed(l) && e in l.entries && e.isDir && e.contents.failed
    ensures Directory(e.name, []) in Read(l, printFiles).nodes
  {
    DirectoryAlwaysListed(l, printFiles, e);
    assert e.contents.entries == [];
    assert Read(e.contents, printFiles).nodes == [];
  }
}
