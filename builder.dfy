/** The tree builder, `readDir` (hw1_tree/main.go:60-83).

    The filesystem is an input value: listing a path yields its entries and
    whether the listing reported an error. `ioutil.ReadDir` returns no entries
    along with an error; `Listing` also admits entries beside an error, and
    `BuilderLemmas.WellFormed` is what rules that out. `readDir` becomes the method `ReadDir`, proved
    against the function `Read`; the lemmas state what `Read` promises. */
module Builder {
  import opened Names
  import opened Nodes

  /** One entry of a listing, as `os.FileInfo` describes it. For a
      directory, `contents` is what listing the joined path returns; for a
      file it is never looked at. */
  datatype Entry = Entry(name: string, isDir: bool, size: nat, contents: Listing)

  /** The outcome of `ioutil.ReadDir` on one path: its entries, and whether
      it reported an error (in which case it returned no entries). */
  datatype Listing = Listing(entries: seq<Entry>, failed: bool)

  /** What `readDir` returns: whether its own listing failed, and the nodes. */
  datatype ReadResult = ReadResult(failed: bool, nodes: seq<Node>)

  // ---------------------------------------------------------------------
  // Sorting by name (the `sort.Slice` call, hw1_tree/main.go:63-65)
  // ---------------------------------------------------------------------

  predicate StrictlySorted(s: seq<Entry>)
  {
    forall i, j :: 0 <= i < j < |s| ==> Less(s[i].name, s[j].name)
  }

  function NameSet(s: seq<Entry>): set<string>
  {
    set e | e in s :: e.name
  }

  /** No two entries of one listing share a name, as in a real directory. */
  predicate DistinctNames(s: seq<Entry>)
  {
    forall i, j :: 0 <= i < j < |s| ==> s[i].name != s[j].name
  }

  /** Inserts `x` into `s`, walking from the back past every entry whose
      name is greater than `x`'s (the step of an insertion sort). */
  function Insert(x: Entry, s: seq<Entry>): (r: seq<Entry>)
    ensures |r| == |s| + 1 && multiset(r) == multiset(s) + multiset{x}
  {
    if s == [] then [x]
    else if Less(x.name, s[|s| - 1].name) then
      assert s == s[..|s| - 1] + [s[|s| - 1]];
      Insert(x, s[..|s| - 1]) + [s[|s| - 1]]
    else s + [x]
  }

  /** The entries in ascending name order: a permutation of the input. */
  function SortByName(s: seq<Entry>): (r: seq<Entry>)
    ensures |r| == |s| && multiset(r) == multiset(s)
  {
    if s == [] then []
    else
      assert s == s[..|s| - 1] + [s[|s| - 1]];
      Insert(s[|s| - 1], SortByName(s[..|s| - 1]))
  }

  lemma {:induction false} InsertStrictlySorted(x: Entry, s: seq<Entry>)
    requires StrictlySorted(s) && x.name !in NameSet(s)
    ensures StrictlySorted(Insert(x, s))
  {
    if s != [] {
      var front, last := s[..|s| - 1], s[|s| - 1];
      assert last in s;
      if Less(x.name, last.name) {
        assert NameSet(front) <= NameSet(s);
        InsertStrictlySorted(x, front);
        var r := Insert(x, front);
        forall m | m in r
          ensures Less(m.name, last.name)
        {
          assert m in multiset(front) + multiset{x};
          if m != x {
            assert m in front;
            var k :| 0 <= k < |front| && front[k] == m;
            assert s[k] == m;
          }
        }
        var t := r + [last];
        forall i, j | 0 <= i < j < |t|
          ensures Less(t[i].name, t[j].name)
        {
          if j == |r| {
            assert t[i] in r;
          } else {
            assert t[i] == r[i] && t[j] == r[j];
          }
        }
      } else {
        NotLessIsLe(x.name, last.name);
        assert Less(last.name, x.name);
        var t := s + [x];
        forall i, j | 0 <= i < j < |t|
          ensures Less(t[i].name, t[j].name)
        {
          if j == |s| && i < |s| - 1 {
            LessTransitive(s[i].name, last.name, x.name);
          }
        }
      }
    }
  }

  /** With distinct names the sorted listing is strictly ascending. */
  lemma {:induction false} SortStrictlySorted(s: seq<Entry>)
    requires DistinctNames(s)
    ensures StrictlySorted(SortByName(s))
  {
    if s != [] {
      var front, last := s[..|s| - 1], s[|s| - 1];
      SortStrictlySorted(front);
      var sorted := SortByName(front);
      forall e | e in sorted
        ensures e.name != last.name
      {
        assert e in multiset(front);
        var k :| 0 <= k < |front| && front[k] == e;
        assert s[k] == e;
      }
      InsertStrictlySorted(last, sorted);
    }
  }

  /** Two strictly ascending lists holding the same entries are equal. */
  lemma {:induction false} StrictlySortedUnique(a: seq<Entry>, b: seq<Entry>)
    requires StrictlySorted(a) && StrictlySorted(b) && multiset(a) == multiset(b)
    ensures a == b
    decreases |a|
  {
    assert |a| == |multiset(a)| == |multiset(b)| == |b|;
    if a != [] {
      SameFirst(a, b);
      SameRest(a, b);
      SortedRest(a);
      SortedRest(b);
      StrictlySortedUnique(a[1..], b[1..]);
      assert a == [a[0]] + a[1..] && b == [b[0]] + b[1..];
    }
  }

  /** Both start with the entry of the least name. */
  lemma SameFirst(a: seq<Entry>, b: seq<Entry>)
    requires StrictlySorted(a) && StrictlySorted(b) && multiset(a) == multiset(b)
    requires a != [] && b != []
    ensures a[0] == b[0]
  {
    assert a[0] in multiset(b) && b[0] in multiset(a);
    var j :| 0 <= j < |b| && b[j] == a[0];
    var i :| 0 <= i < |a| && a[i] == b[0];
    if i > 0 && j > 0 {
      LessTransitive(a[0].name, b[0].name, a[0].name);
    }
  }

  /** Removing a common first entry keeps both equal as multisets. */
  lemma SameRest(a: seq<Entry>, b: seq<Entry>)
    requires multiset(a) == multiset(b) && a != [] && b != [] && a[0] == b[0]
    ensures multiset(a[1..]) == multiset(b[1..])
  {
    assert a == [a[0]] + a[1..] && b == [b[0]] + b[1..];
    assert multiset(a[1..]) == multiset(a) - multiset{a[0]};
    assert multiset(b[1..]) == multiset(b) - multiset{b[0]};
  }

  lemma SortedRest(a: seq<Entry>)
    requires StrictlySorted(a) && a != []
    ensures StrictlySorted(a[1..])
  {
  }

  /** With distinct names, the name order leaves no choice: any strictly
      ascending arrangement of the entries is `SortByName`'s, so an unstable
      sort could produce no other. */
  lemma SortByNameUnique(s: seq<Entry>, r: seq<Entry>)
    requires DistinctNames(s) && StrictlySorted(r) && multiset(r) == multiset(s)
    ensures r == SortByName(s)
  {
    SortStrictlySorted(s);
    StrictlySortedUnique(r, SortByName(s));
  }

  // ---------------------------------------------------------------------
  // The specification of readDir
  // ---------------------------------------------------------------------

  /** An entry yields a node when it is a directory or files are printed. */
  predicate Kept(e: Entry, printFiles: bool)
  {
    e.isDir || printFiles
  }

  /** The listing's nodes: its entries sorted by name, each kept entry
      turned into its node. Only the listing's own error is reported. */
  function Read(l: Listing, printFiles: bool): ReadResult
    decreases l.entries, 1
  {
    ReadResult(l.failed, CollectUpTo(l, |l.entries|, printFiles))
  }

  /** The nodes of the kept entries among the first `i` sorted entries: the
      list that the `for` loop of readDir has built after `i` turns. */
  function CollectUpTo(l: Listing, i: nat, printFiles: bool): seq<Node>
    requires i <= |l.entries|
    decreases l.entries, 0, i
  {
    if i == 0 then []
    else
      var sorted := SortByName(l.entries);
      var e := sorted[i - 1];
      SortedFromListing(l);
      assert e in sorted;
      CollectUpTo(l, i - 1, printFiles) + (if Kept(e, printFiles) then [NodeOf(e, printFiles)] else [])
  }

  /** The node an entry becomes: a directory with its own listing read
      recursively (its error dropped), or a file with its size. */
  function NodeOf(e: Entry, printFiles: bool): (n: Node)
    decreases e
  {
    if e.isDir then Directory(e.name, Read(e.contents, printFiles).nodes)
    else File(e.name, e.size)
  }

  // ---------------------------------------------------------------------
  // readDir itself
  // ---------------------------------------------------------------------

  /** Slides `a[i]` left past every greater name before it, so that the
      first `i + 1` elements become `Insert(a[i], a[..i])`. */
  method InsertAt(a: array<Entry>, i: nat)
    requires i < a.Length
    modifies a
    ensures a[..] == Insert(old(a[i]), old(a[..i])) + old(a[i + 1..])
  {
    var x := a[i];
    ghost var s, rest := a[..i], a[i + 1..];
    var j := i;
    assert a[..] == Sliding(s, x, j) + rest;
    assert s[..j] == s && s[j..] == [];
    while j > 0 && Less(x.name, a[j - 1].name)
      invariant 0 <= j <= i
      invariant a[..] == Sliding(s, x, j) + rest
      invariant Insert(x, s) == Insert(x, s[..j]) + s[j..]
    {
      SlideStep(x, s, j, rest);
      a[j] := a[j - 1];
      j := j - 1;
    }
    PlaceStep(x, s, j, rest);
    a[j] := x;
  }

  /** The first `|s| + 1` cells while `x` slides left and has reached `j`:
      everything from `j` on has moved one place right, and cell `j` still
      holds its old value until `x` is written there. */
  ghost function Sliding(s: seq<Entry>, x: Entry, j: nat): seq<Entry>
    requires j <= |s|
  {
    s[..j] + [if j == |s| then x else s[j]] + s[j..]
  }

  /** One slide of the insertion: passing an entry with a greater name. */
  lemma SlideStep(x: Entry, s: seq<Entry>, j: nat, rest: seq<Entry>)
    requires 0 < j <= |s| && Less(x.name, s[j - 1].name)
    ensures (Sliding(s, x, j) + rest)[j - 1] == s[j - 1]
    ensures (Sliding(s, x, j) + rest)[j := s[j - 1]] == Sliding(s, x, j - 1) + rest
    ensures Insert(x, s[..j]) + s[j..] == Insert(x, s[..j - 1]) + s[j - 1..]
  {
    assert s[..j][..j - 1] == s[..j - 1];
    assert s[j - 1..] == [s[j - 1]] + s[j..];
    assert s[..j] == s[..j - 1] + [s[j - 1]];
  }

  /** Where the slide stops, writing `x` finishes the insertion. */
  lemma PlaceStep(x: Entry, s: seq<Entry>, j: nat, rest: seq<Entry>)
    requires j <= |s| && (j == 0 || !Less(x.name, s[j - 1].name))
    requires Insert(x, s) == Insert(x, s[..j]) + s[j..]
    ensures j < |Sliding(s, x, j) + rest|
    ensures (Sliding(s, x, j) + rest)[j := x] == Insert(x, s) + rest
  {
    assert Insert(x, s[..j]) == s[..j] + [x];
  }

  /** Sorts the listing's entries in place by name, by insertion sort. */
  method SortEntries(a: array<Entry>)
    modifies a
    ensures a[..] == SortByName(old(a[..]))
  {
    ghost var input := a[..];
    var i := 0;
    assert input[..0] == [] && input[0..] == input;
    while i < a.Length
      invariant 0 <= i <= a.Length
      invariant a[..] == SortByName(input[..i]) + input[i..]
    {
      SortStep(input, i);
      InsertAt(a, i);
      i := i + 1;
    }
    assert input[..a.Length] == input && input[a.Length..] == [];
  }

  /** One turn of the sorting loop: the sorted prefix absorbs `input[i]`. */
  lemma SortStep(input: seq<Entry>, i: nat)
    requires i < |input|
    ensures var t := SortByName(input[..i]) + input[i..];
      |SortByName(input[..i])| == i && t[i] == input[i] && t[..i] == SortByName(input[..i])
      && t[i + 1..] == input[i + 1..]
      && Insert(input[i], SortByName(input[..i])) + input[i + 1..] == SortByName(input[..i + 1]) + input[i + 1..]
  {
    assert input[..i + 1][..i] == input[..i];
    assert |multiset(SortByName(input[..i]))| == |multiset(input[..i])|;
  }

  /** `readDir(path, nodes, printFiles)`: appends to `acc` the node of every
      kept entry of the listing, in name order, reading each subdirectory
      recursively and dropping that call's error; reports only this
      listing's own error. */
  method ReadDir(l: Listing, acc: seq<Node>, printFiles: bool) returns (failed: bool, nodes: seq<Node>)
    ensures failed == l.failed
    ensures nodes == acc + Read(l, printFiles).nodes
    decreases l.entries
  {
    var dirsAndFiles, err := ListDirectory(l);
    SortEntries(dirsAndFiles);
    // `range` evaluates the slice once, before the first turn.
    var entries := dirsAndFiles[..];
    assert entries == SortByName(l.entries) && |entries| == |l.entries|;
    nodes := acc;
    for i := 0 to |entries|
      invariant nodes == acc + CollectUpTo(l, i, printFiles)
    {
      var info := entries[i];
      LoopStep(l, i, info, printFiles, acc, nodes);
      if info.isDir || printFiles {
        var newNode := NewNode(info, printFiles);
        nodes := nodes + [newNode];
      }
    }
    failed := err;
  }

  /** `ioutil.ReadDir`: a fresh slice holding the entries the listing
      returned, and the listing's error. */
  method ListDirectory(l: Listing) returns (dirsAndFiles: array<Entry>, err: bool)
    ensures fresh(dirsAndFiles) && dirsAndFiles[..] == l.entries && err == l.failed
  {
    dirsAndFiles := new Entry[|l.entries|](k requires 0 <= k < |l.entries| => l.entries[k]);
    assert dirsAndFiles[..] == l.entries;
    err := l.failed;
  }

  /** The node for one kept entry (the body of readDir's loop): a
      directory is read recursively and the error of that read is dropped. */
  method NewNode(info: Entry, printFiles: bool) returns (newNode: Node)
    ensures newNode == NodeOf(info, printFiles)
    decreases info
  {
    if info.isDir {
      var childFailed, children := ReadDir(info.contents, [], printFiles);
      assert children == Read(info.contents, printFiles).nodes;
      newNode := Directory(info.name, children);
    } else {
      newNode := File(info.name, info.size);
    }
  }

  /** The sorted entries all come from the listing. */
  lemma SortedFromListing(l: Listing)
    ensures forall e :: e in SortByName(l.entries) ==> e in l.entries
  {
    var sorted := SortByName(l.entries);
    forall e | e in sorted
      ensures e in l.entries
    {
      assert e in multiset(sorted);
    }
  }

  /** One turn of readDir's loop, in terms of its specification: the turn
      for the sorted entry `info` adds its node if it is kept. */
  lemma CollectUpToStep(l: Listing, i: nat, info: Entry, printFiles: bool)
    requires i < |l.entries| && info == SortByName(l.entries)[i]
    ensures info in l.entries
    ensures CollectUpTo(l, i + 1, printFiles)
         == CollectUpTo(l, i, printFiles) + if Kept(info, printFiles) then [NodeOf(info, printFiles)] else []
  {
    SortedFromListing(l);
    assert info in SortByName(l.entries);
  }

  /** What one turn of readDir's loop has to establish, for the turn's
      entry `info`. */
  lemma LoopStep(l: Listing, i: nat, info: Entry, printFiles: bool, acc: seq<Node>, nodes: seq<Node>)
    requires i < |l.entries| && info == SortByName(l.entries)[i]
    requires nodes == acc + CollectUpTo(l, i, printFiles)
    ensures info in l.entries
    ensures Kept(info, printFiles) ==> nodes + [NodeOf(info, printFiles)] == acc + CollectUpTo(l, i + 1, printFiles)
    ensures !Kept(info, printFiles) ==> nodes == acc + CollectUpTo(l, i + 1, printFiles)
  {
    CollectUpToStep(l, i, info, printFiles);
    var done := CollectUpTo(l, i, printFiles);
    if Kept(info, printFiles) {
      var n := NodeOf(info, printFiles);
      assert acc + done + [n] == acc + (done + [n]);
    } else {
      assert done + [] == done;
    }
  }
}
