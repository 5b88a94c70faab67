/** dirTree (hw1_tree/main.go:53-58): read the tree below the root, print
    it, and hand back the root listing's error. */
module TreeCommand {
  import opened Names
  import opened Decimal
  import opened Nodes
  import opened Builder
  import opened Renderer

  /** What dirTree leaves behind: the error it returns and the text it writes. */
  datatype Outcome = Outcome(failed: bool, output: string)

  /** dirTree on a listing: the root listing's own error, and the drawing of
      what was read below it. */
  function Tree(root: Listing, printFiles: bool): Outcome
  {
    Outcome(root.failed, Render(Read(root, printFiles).nodes, []))
  }

  /** dirTree reports only the root listing's error, and writes the drawing
      whether or not that listing failed: the pre-order list of lines of the
      sorted, filtered tree. */
  lemma TreeIsPreOrder(root: Listing, printFiles: bool)
    ensures Tree(root, printFiles).failed == root.failed
    ensures Tree(root, printFiles).output == Text([], PreOrder(Read(root, printFiles).nodes, []))
  {
    RenderIsPreOrder(Read(root, printFiles).nodes, []);
  }

  /** dirTree: builds with readDir, prints with printDir, returns the error. */
  method DirTree(out: Sink, root: Listing, printFiles: bool) returns (failed: bool)
    modifies out
    ensures failed == Tree(root, printFiles).failed
    ensures out.written == old(out.written) + Tree(root, printFiles).output
  {
    var nodes;
    failed, nodes := ReadDir(root, [], printFiles);
    PrintDir(out, nodes, []);
    assert nodes == Read(root, printFiles).nodes;
  }

  /** The sample tree: `a/` holding a 5-byte `x.txt`, and an empty `b.txt`,
      listed out of order. */
  function Sample(): Listing
  {
    Listing([SampleFile(), SampleDirectory()], false)
  }

  function SampleDirectory(): Entry
  {
    Entry("a", true, 0, Listing([Entry("x.txt", false, 5, Listing([], false))], false))
  }

  function SampleFile(): Entry
  {
    Entry("b.txt", false, 0, Listing([], false))
  }

  /** Reading the sample sorts `a` before `b.txt`. */
  lemma SampleRead(printFiles: bool)
    ensures Read(Sample(), printFiles).nodes
         == [Directory("a", if printFiles then [File("x.txt", 5)] else [])]
            + (if printFiles then [File("b.txt", 0)] else [])
  {
    var a, b := SampleDirectory(), SampleFile();
    var x := a.contents.entries[0];
    assert [b, a][..1] == [b] && [b][..0] == [] && [x][..0] == [];
    assert SortByName([b]) == [b];
    assert Less(a.name, b.name);
    assert Insert(a, [b]) == [a, b];
    assert SortByName(Sample().entries) == [a, b];
    assert SortByName(a.contents.entries) == [x];
    assert Read(a.contents, printFiles).nodes == if printFiles then [File("x.txt", 5)] else [];
    assert CollectUpTo(Sample(), 1, printFiles) == [NodeOf(a, printFiles)];
  }

  /** With files, the sample draws `a` with `x.txt` beneath it, then `b.txt`. */
  lemma SampleWithFiles()
    ensures Tree(Sample(), true)
         == Outcome(false, "├───a\n" + "│\t└───x.txt (5b)\n" + "└───b.txt (empty)\n")
  {
    SampleRead(true);
    SampleDrawing();
  }

  /** The drawing of the sample's nodes, line by line. */
  lemma SampleDrawing()
    ensures Render([Directory("a", [File("x.txt", 5)]), File("b.txt", 0)], [])
         == "├───a\n" + "│\t└───x.txt (5b)\n" + "└───b.txt (empty)\n"
  {
    var x, b := File("x.txt", 5), File("b.txt", 0);
    var a := Directory("a", [x]);
    SampleDirectoryLine();
    SampleNestedLine();
    SampleFileLine();
    var top, nested, file := Head(MiddleConnector, a), Render([x], [MiddleFragment]), Render([b], []);
    assert [a, b][1..] == [b] && [] + [MiddleFragment] == [MiddleFragment];
    assert Render([a, b], []) == Join([]) + top + Render(a.children, [] + [MiddleFragment]) + Render([a, b][1..], []);
    assert "" + top + nested + file == top + nested + file;
  }

  lemma SampleDirectoryLine()
    ensures Head(MiddleConnector, Directory("a", [File("x.txt", 5)])) == "├───a\n"
  {
  }

  lemma SampleNestedLine()
    ensures Render([File("x.txt", 5)], [MiddleFragment]) == "│\t└───x.txt (5b)\n"
  {
    var x := File("x.txt", 5);
    assert Itoa(5) == "5";
    assert Label(x) == "x.txt (5b)";
    var head := Head(LastConnector, x);
    assert head == "└───x.txt (5b)\n";
    assert [MiddleFragment][..0] == [];
    var indent := Join([MiddleFragment]);
    assert indent == Join([]) + MiddleFragment;
    assert indent == "│\t";
    assert [x][0] == x && |[x]| == 1;
    assert Render([x], [MiddleFragment]) == indent + head + "";
    TwoPieces(indent, head);
  }

  /** The nested line's two pieces, joined: a fact about the literals alone. */
  lemma TwoPieces(indent: string, head: string)
    requires indent == "│\t" && head == "└───x.txt (5b)\n"
    ensures indent + head + "" == "│\t└───x.txt (5b)\n"
  {
  }

  lemma SampleFileLine()
    ensures Render([File("b.txt", 0)], []) == "└───b.txt (empty)\n"
  {
    var b := File("b.txt", 0);
    assert Label(b) == "b.txt (empty)";
    var head := Head(LastConnector, b);
    assert head == "└───b.txt (empty)\n";
    assert [b][0] == b && |[b]| == 1;
    assert Render([b], []) == Join([]) + head + "";
    assert Join([]) + head + "" == head;
  }

  /** Without files, the sample draws the directory `a` alone. */
  lemma SampleWithoutFiles()
    ensures Tree(Sample(), false) == Outcome(false, "└───a\n")
  {
    SampleRead(false);
    assert Render([Directory("a", [])], []) == "└───a\n";
  }
}
