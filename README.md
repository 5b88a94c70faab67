# A verified model of `hw1_tree`, a `tree`-style directory renderer

`hw1_tree` lists a directory recursively and prints it as a tree, one line
per node:

- each line is the indentation inherited from the enclosing directories;
- then a connector: `└───` for the last of its siblings, `├───` for any other;
- then the node's label and a line break.

Under a last sibling the indentation grows by a tab. Under any other it grows
by `│` and a tab. A file's label is its name plus ` (empty)` or ` (Nb)`; a
directory's label is its name. Files are listed only with `-f`, and
directories always. Siblings are sorted by name. Only the root listing's
error is returned.

The model has these modules:

- `Names`: Go's byte-wise string order.
- `Decimal`: the decimal numeral of a size, and its inverse.
- `Nodes`: the node tree and `File.String`/`Directory.String`.
- `Builder` and `BuilderLemmas`: `readDir`.
  - It is the method `Builder.ReadDir`: an in-place insertion sort on an
    array (`SortEntries`), then a `for` loop that appends nodes.
  - It is proved against the function `Builder.Read`.
  - `Read` is related to an independent reference, `BuilderLemmas.NodesOf`
    (the kept entries' nodes in listing order).
- `Renderer`: `printDir`.
  - It is the method `Renderer.PrintDir`, which writes piece by piece to a
    `Sink` object standing for the `io.Writer`.
  - It is proved against the function `Render`.
  - `Render` is related to an independent description of the drawing as a
    pre-order list of `Line`s (`PreOrder`, `Text`).
- `TreeCommand`: `dirTree`, plus a worked example.

The filesystem is an input value. A `Builder.Listing` is what
`ioutil.ReadDir` returns for one path: its entries and whether it reported
an error. On an error, `ioutil.ReadDir` returns no entries; the predicate
`BuilderLemmas.WellFormed` states this, together with distinct names in
each directory. A directory entry carries the listing of its joined path.

Each modelled function has a row in the table. A function without a
contract of its own says so, and its row names the lemmas that state its
properties.

## Model

| member | source | states |
|---|---|---|
| Names.Le | hw1_tree/main.go:64 | no contract of its own: Go's `<=` on strings, compared character by character, with a proper prefix smaller; its properties are `LeReflexive`, `LeTotal`, `LeAntisymmetric` and `LeTransitive` |
| Names.Less | hw1_tree/main.go:64 | no contract of its own: the sort callback's `<`, that is `Le` and not equal; its properties are `LessTransitive` and `NotLessIsLe` |
| Names.LeReflexive | hw1_tree/main.go:64 | every name is `<=` itself |
| Names.LeAntisymmetric | hw1_tree/main.go:64 | two names each `<=` the other are equal |
| Names.LeTransitive | hw1_tree/main.go:64 | `<=` on names is transitive |
| Names.LeTotal | hw1_tree/main.go:63-65 | any two names are ordered one way or the other by the sort's `<` on strings |
| Names.LessTransitive | hw1_tree/main.go:63-65 | the sort's `<` on names is transitive |
| Names.NotLessIsLe | hw1_tree/main.go:63-65 | a name that is not less than another is greater or equal, so the sort's test decides the order |
| Decimal.Itoa | hw1_tree/main.go:33 | the numeral of a size is digits only, never empty, has no leading zero, and starts with `0` exactly for 0 |
| Decimal.AtoiItoa | hw1_tree/main.go:33 | reading back the numeral of a size gives the size |
| Decimal.ItoaAtoi | hw1_tree/main.go:33 | every canonical numeral is the numeral of its value |
| Decimal.ItoaInjective | hw1_tree/main.go:33 | different sizes print as different numerals |
| Nodes.SizeAnnotation | hw1_tree/main.go:29-33 | no contract of its own: ` (empty)` for size 0, otherwise ` (` + decimal + `b)`; its properties are `AnnotationRoundTrip` and `ParsedAnnotationPrints` |
| Nodes.Label | hw1_tree/main.go:28-38 | no contract of its own: `File.String` and `Directory.String`; its properties are `LabelShape`, `EmptyFileLabel`, `SizedFileLabel`, `FileLabelInjective` and `LabelOnOneLine` |
| Nodes.LabelShape | hw1_tree/main.go:28-38 | a label starts with the node's name; a directory's label is exactly its name; a file's label continues with its size annotation |
| Nodes.EmptyFileLabel | hw1_tree/main.go:29-31 | a file of size 0 is labelled `name (empty)` |
| Nodes.SizedFileLabel | hw1_tree/main.go:33 | a file of size N > 0 is labelled `name (Nb)`, N in decimal |
| Nodes.AnnotationRoundTrip | hw1_tree/main.go:28-34 | parsing a file's size annotation gives back its size |
| Nodes.ParsedAnnotationPrints | hw1_tree/main.go:28-34 | only printed annotations parse: whatever parses to a size is that size's annotation |
| Nodes.FileLabelInjective | hw1_tree/main.go:28-34 | two files with one name have the same label only when they have the same size |
| Nodes.LabelOnOneLine | hw1_tree/main.go:28-38 | a label holds a line break only if the name does |
| Builder.Insert | hw1_tree/main.go:63-65 | inserting an entry into a list gives one more element, the same multiset plus that entry |
| Builder.SortByName | hw1_tree/main.go:63-65 | sorting keeps the length and the multiset of the entries |
| Builder.InsertStrictlySorted | hw1_tree/main.go:63-65 | inserting an entry with a new name into a strictly ascending list keeps it strictly ascending |
| Builder.SortStrictlySorted | hw1_tree/main.go:63-65 | with distinct names, the sorted entries are strictly ascending by name |
| Builder.StrictlySortedUnique | hw1_tree/main.go:63-65 | two strictly ascending lists holding the same entries are equal |
| Builder.SortByNameUnique | hw1_tree/main.go:63-65 | with distinct names, every strictly ascending arrangement of the entries is `SortByName`'s, so no sort by this order could give another |
| Builder.InsertAt | hw1_tree/main.go:63-65 | one pass of the in-place sort leaves `Insert(a[i], a[..i])` followed by the untouched rest |
| Builder.SortEntries | hw1_tree/main.go:63-65 | sorting the slice in place leaves exactly `SortByName` of its old contents |
| Builder.ListDirectory | hw1_tree/main.go:61 | listing a path gives a fresh slice of the listing's entries and the listing's error |
| Builder.NewNode | hw1_tree/main.go:69-76 | a directory entry becomes a directory holding its own listing read recursively, with the error dropped; a file entry becomes a file with its name and size |
| Builder.NodeOf | hw1_tree/main.go:69-76 | no contract of its own: the node a kept entry becomes; `NewNode` computes it and `DirectoryAlwaysListed` and `FileListedIffPrinted` state what it gives |
| Builder.CollectUpTo | hw1_tree/main.go:67-80 | no contract of its own: the nodes the loop has appended after a number of turns; `ReadDir`'s loop invariant and `CollectUpToIsNodesOf` relate it to the loop and to `NodesOf` |
| Builder.Read | hw1_tree/main.go:60-83 | no contract of its own: readDir's result, its own listing's error and the nodes of all its kept entries in sorted order; `ReadDir` computes it and the `BuilderLemmas` rows state its properties |
| Builder.ReadDir | hw1_tree/main.go:60-83 | readDir returns its own listing's error and appends to `nodes` exactly the nodes `Read` describes |
| BuilderLemmas.ReadIsSortedNodesOf | hw1_tree/main.go:63-80 | readDir's nodes are the kept entries' nodes in sorted entry order |
| BuilderLemmas.ReadIsPermutation | hw1_tree/main.go:63-80 | readDir's nodes are a permutation of the kept entries' nodes in listing order |
| BuilderLemmas.ReadMember | hw1_tree/main.go:67-80 | a node is listed if and only if it is the node of some kept entry |
| BuilderLemmas.DirectoryAlwaysListed | hw1_tree/main.go:68-73 | every subdirectory, empty or not, is listed whatever `printFiles` is, with its own listing read below it |
| BuilderLemmas.FileListedIffPrinted | hw1_tree/main.go:68-76 | a file entry is listed, with its name and size, if and only if `printFiles` is set |
| BuilderLemmas.ReadCountWithFiles | hw1_tree/main.go:67-80 | with `printFiles` set, there are exactly as many nodes as entries |
| BuilderLemmas.ReadWithoutFiles | hw1_tree/main.go:68-76 | without `printFiles`, no file node appears at any depth |
| BuilderLemmas.ReadDeepAscending | hw1_tree/main.go:63-80 | in a tree with distinct names per directory, siblings come out strictly ascending by name at every depth |
| BuilderLemmas.NestedErrorDropped | hw1_tree/main.go:60-83 | for every listing and every subdirectory whose listing fails: the result's error is the listing's own, and the subdirectory is still listed with what its listing returned |
| BuilderLemmas.FailedDirectoryEmpty | hw1_tree/main.go:60-83 | in a well-formed tree, a subdirectory whose listing fails is listed as an empty directory |
| Renderer.Join | hw1_tree/main.go:90 | no contract of its own: `strings.Join(prefix, "")`; `JoinAppend` and `JoinOnOneLine` state its properties |
| Renderer.Render | hw1_tree/main.go:85-110 | no contract of its own: the text printDir writes; `PrintDir` writes it, and `RenderIsText`, `RenderEmpty`, `SubtreeFollows`, `SiblingsConnected` and `RenderLineCount` state what it is |
| Renderer.Below | hw1_tree/main.go:97-99 | no contract of its own: what printDir writes under a node, the children one level deeper for a directory and nothing for a file; covered through `Render`'s lemmas |
| Renderer.Sink.Write | hw1_tree/main.go:90 | writing appends the text to what the writer holds |
| Renderer.PrintDir | hw1_tree/main.go:85-110 | printDir appends exactly `Render(nodes, prefix)` to the writer |
| Renderer.RenderIsText | hw1_tree/main.go:85-110 | the output is the pre-order list of lines; each line is the base indentation plus one fragment per enclosing directory, then the connector, the label and a line break |
| Renderer.RenderIsPreOrder | hw1_tree/main.go:85-110 | the same, for a call with no enclosing directory |
| Renderer.PreOrderSize | hw1_tree/main.go:94-109 | the drawing has one line per node of the forest, at every depth |
| Renderer.RenderEmpty | hw1_tree/main.go:86-88 | printDir writes nothing if and only if it is given no nodes |
| Renderer.SubtreeFollows | hw1_tree/main.go:94-109 | right after a directory's line come exactly the lines of its subtree, with the directory's indentation plus one fragment (a tab under a last sibling, `│` and a tab under any other) |
| Renderer.PreOrderNested | hw1_tree/main.go:94-109 | every line below a call keeps that call's enclosing directories as the start of its own |
| Renderer.SiblingsConnected | hw1_tree/main.go:94-109 | the lines at a call's own depth are its nodes in order, and only the final one is drawn as last (`└───`) |
| Renderer.RenderLineCount | hw1_tree/main.go:85-110 | when no name holds a line break, the output holds exactly one line break per node of the forest |
| TreeCommand.Tree | hw1_tree/main.go:53-58 | no contract of its own: dirTree's error and output; `DirTree` computes it and `TreeIsPreOrder`, `SampleWithFiles` and `SampleWithoutFiles` state what it is |
| TreeCommand.TreeIsPreOrder | hw1_tree/main.go:53-58 | dirTree returns only the root listing's error and writes, in every case, the pre-order drawing of the sorted, filtered tree |
| TreeCommand.DirTree | hw1_tree/main.go:53-58 | dirTree reads with readDir, prints with printDir and returns readDir's error |
| TreeCommand.SampleWithFiles | hw1_tree/main.go:53-58 | with files: `a/` holding a 5-byte `x.txt`, and an empty `b.txt`, are drawn as `├───a`, `│\t└───x.txt (5b)`, `└───b.txt (empty)` |
| TreeCommand.SampleWithoutFiles | hw1_tree/main.go:53-58 | without files, the same tree is drawn as the single line `└───a` |

The depth of a line appears in two places. A line's indentation has one
fragment per enclosing directory (`RenderIsText`, together with the length
and contents of `Renderer.Fragments`). A subtree is drawn one fragment
deeper than its directory (`SubtreeFollows`). So a node at depth D is
preceded by exactly D fragments.

## Left out

- `main` (hw1_tree/main.go:40-51) is not modelled. It checks the argument count, matches `-f` and panics on error, which is process glue.
- The real filesystem, `ioutil.ReadDir` and `filepath.Join` are not modelled; each path's listing is an input `Listing` value.
- Builder.Listing: over-approximates `ioutil.ReadDir`, because it admits entries beside an error, which `ioutil.ReadDir` never returns. Every lemma except `ReadDeepAscending` and `FailedDirectoryEmpty` holds for all listings, including these. Those two assume `WellFormed`, which excludes them.
- Names.Le: names are sequences of Unicode scalar values. A Go string, and a file name on Linux, can be any bytes, so a name that is not valid UTF-8 cannot be represented. For valid UTF-8, character order and Go's byte order agree.
- Write errors of the `io.Writer` and the formatting machinery of `fmt.Fprintf` are not modelled. The code never checks write errors; a `Sink` only accumulates text.
- Builder.SortEntries: it is a stable insertion sort, whereas `sort.Slice` is not stable. It therefore fixes one of the orders `sort.Slice` may produce. For distinct names, which a real directory always has, that order is the only one (`SortByNameUnique`).
- Decimal.Itoa: covers non-negative sizes only. The `int64` to `int` conversion and overflow are not modelled, and sizes are unbounded naturals.
- Go's type assertion `node.(Directory)` is a constructor test on the closed datatype `Node`.
- The aliasing of `append(prefix, ...)` on Go slices is not modelled. The prefix is passed as a value, which matches the code's behaviour because each recursive call only appends to it.
- Renderer.RenderLineCount: assumes that no name and no prefix piece contains a line break. A name with a line break would print more lines than nodes.
