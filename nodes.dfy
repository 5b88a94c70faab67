/** The in-memory tree (hw1_tree/main.go:14-26) and the one-line label of
    each kind of node (`File.String`, `Directory.String`). */
module Nodes {
  import opened Wrappers
  import opened Decimal
  import opened Names

  /** Go's `Node` interface has exactly two implementations; here they are
      the two variants of one closed type, so the renderer's type test on
      `Directory` becomes a constructor test. */
  datatype Node =
    | Directory(name: string, children: seq<Node>)
    | File(name: string, size: nat)

  const EmptyMark: string := " (empty)"

  /** What `File.String` appends to the file name. */
  function SizeAnnotation(size: nat): string
  {
    if size == 0 then EmptyMark else " (" + Itoa(size) + "b)"
  }

  /** `File.String` and `Directory.String`: what `%s` prints for a node. */
  function Label(n: Node): string
  {
    match n
    case Directory(name, _) => name
    case File(name, size) => name + SizeAnnotation(size)
  }

  /** Reads a size back from an annotation: `" (empty)"` is 0, `" (Nb)"` is N
      for a canonical numeral N that is not `0`; anything else is not an
      annotation. */
  function ParseAnnotation(s: string): Option<nat>
  {
    if s == EmptyMark then Some(0)
    else if |s| >= 5 && s[..2] == " (" && s[|s| - 2..] == "b)"
            && Canonical(s[2..|s| - 2]) && s[2] != '0'
    then Some(Atoi(s[2..|s| - 2]))
    else None
  }

  /** A label always begins with the node's name; a directory's label is
      nothing else, a file's label has its size annotation after the name. */
  lemma LabelShape(n: Node)
    ensures |Label(n)| >= |n.name| && Label(n)[..|n.name|] == n.name
    ensures n.Directory? ==> Label(n) == n.name
    ensures n.File? ==> Label(n)[|n.name|..] == SizeAnnotation(n.size)
  {
  }

  /** A file of size 0 is labelled `name (empty)`. */
  lemma EmptyFileLabel(name: string)
    ensures Label(File(name, 0)) == name + " (empty)"
  {
  }

  /** A file of size N > 0 is labelled `name (Nb)` with N in decimal. */
  lemma SizedFileLabel(name: string, size: nat)
    requires size > 0
    ensures Label(File(name, size)) == name + " (" + Itoa(size) + "b)"
  {
  }

  /** The annotation determines the size: parsing inverts printing. */
  lemma {:induction false} AnnotationRoundTrip(size: nat)
    ensures ParseAnnotation(SizeAnnotation(size)) == Some(size)
  {
    if size > 0 {
      var digits := Itoa(size);
      var s := SizeAnnotation(size);
      assert s == " (" + digits + "b)";
      assert s[..2] == " (" && s[|s| - 2..] == "b)";
      assert s[2..|s| - 2] == digits;
      AtoiItoa(size);
    }
  }

  /** ... and printing inverts parsing: only printed annotations parse. */
  lemma {:induction false} ParsedAnnotationPrints(s: string, size: nat)
    requires ParseAnnotation(s) == Some(size)
    ensures SizeAnnotation(size) == s
  {
    if s != EmptyMark {
      var digits := s[2..|s| - 2];
      ItoaAtoi(digits);
      AtoiPositive(digits);
      assert s == " (" + digits + "b)";
    }
  }

  /** Two files with the same name have the same label only if they have the
      same size. */
  lemma FileLabelInjective(name: string, a: nat, b: nat)
    requires Label(File(name, a)) == Label(File(name, b))
    ensures a == b
  {
    LabelShape(File(name, a));
    LabelShape(File(name, b));
    AnnotationRoundTrip(a);
    AnnotationRoundTrip(b);
  }

  // ---------------------------------------------------------------------
  // Shapes of node trees
  // ---------------------------------------------------------------------

  /** Siblings in strictly ascending name order. */
  predicate Ascending(nodes: seq<Node>)
  {
    forall i, j :: 0 <= i < j < |nodes| ==> Less(nodes[i].name, nodes[j].name)
  }

  /** Siblings in strictly ascending name order at every depth. */
  predicate DeepAscending(nodes: seq<Node>)
  {
    && Ascending(nodes)
    && forall i :: 0 <= i < |nodes| && nodes[i].Directory? ==> DeepAscending(nodes[i].children)
  }

  /** No file anywhere in the tree. */
  predicate DirectoriesOnly(nodes: seq<Node>)
  {
    forall i :: 0 <= i < |nodes| ==> nodes[i].Directory? && DirectoriesOnly(nodes[i].children)
  }

  /** The number of nodes in the forest, at every depth. */
  function Size(nodes: seq<Node>): nat
  {
    if nodes == [] then 0
    else 1 + (if nodes[0].Directory? then Size(nodes[0].children) else 0) + Size(nodes[1..])
  }

  /** No name anywhere in the forest holds a line break. */
  predicate NamesOnOneLine(nodes: seq<Node>)
  {
    forall i :: 0 <= i < |nodes| ==>
      '\n' !in nodes[i].name && (nodes[i].Directory? ==> NamesOnOneLine(nodes[i].children))
  }

  /** A label holds a line break only if the name does. */
  lemma LabelOnOneLine(n: Node)
    requires '\n' !in n.name
    ensures '\n' !in Label(n)
  {
    if n.File? && n.size > 0 {
      var digits := Itoa(n.size);
      assert Label(n) == n.name + " (" + digits + "b)";
    }
  }
}
