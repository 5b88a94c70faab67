/** printDir (hw1_tree/main.go:85-110): the tree drawn one line per node,
    each line being the accumulated indentation, a connector, the node's
    label and a line break.

    `Render` is the text printDir writes; `PrintDir` is printDir itself,
    writing piece by piece to a `Sink` that stands for the `io.Writer`.
    `PreOrder` and `Text` are an independent description of the same output
    as a list of lines, and the lemmas below say what the drawing means. */
module Renderer {
  import opened Nodes

  const LastConnector: string := "└───"
  const MiddleConnector: string := "├───"
  /** Indentation under a node that was the last of its siblings. */
  const LastFragment: string := "\t"
  /** Indentation under a node that has siblings still to come. */
  const MiddleFragment: string := "│\t"

  /** `strings.Join(prefix, "")`. */
  function Join(prefix: seq<string>): string
  {
    if prefix == [] then "" else Join(prefix[..|prefix| - 1]) + prefix[|prefix| - 1]
  }

  /** What follows the indentation on a node's line. */
  function Head(connector: string, node: Node): string
  {
    connector + Label(node) + "\n"
  }

  /** The text printDir writes for `nodes` under indentation `prefix`. */
  function Render(nodes: seq<Node>, prefix: seq<string>): string
    decreases nodes
  {
    if nodes == [] then ""
    else if |nodes| == 1 then
      Join(prefix) + Head(LastConnector, nodes[0]) + Below(nodes[0], prefix + [LastFragment])
    else
      Join(prefix) + Head(MiddleConnector, nodes[0]) + Below(nodes[0], prefix + [MiddleFragment])
      + Render(nodes[1..], prefix)
  }

  /** What printDir writes under a node: a directory's children, one level
      deeper; nothing under a file. */
  function Below(node: Node, prefix: seq<string>): string
    decreases node
  {
    if node.Directory? then Render(node.children, prefix) else ""
  }

  /** The `io.Writer` printDir writes to: everything written so far. */
  class Sink {
    var written: string

    constructor ()
      ensures written == []
    {
      written := [];
    }

    method Write(s: string)
      modifies this
      ensures written == old(written) + s
    {
      written := written + s;
    }
  }

  /** printDir: appends exactly `Render(nodes, prefix)` to what `out` holds. */
  method PrintDir(out: Sink, nodes: seq<Node>, prefix: seq<string>)
    modifies out
    ensures out.written == old(out.written) + Render(nodes, prefix)
    decreases nodes
  {
    if |nodes| == 0 {
      return;
    }
    ghost var before := out.written;
    var indent := Join(prefix);
    out.Write(indent);
    var node := nodes[0];
    if |nodes| == 1 {
      var head := Head(LastConnector, node);
      out.Write(head);
      if node.Directory? {
        PrintDir(out, node.children, prefix + [LastFragment]);
      }
      RenderStep(nodes, prefix);
      AppendFour(before, indent, head, Below(node, prefix + [LastFragment]), "");
      return;
    }
    var head := Head(MiddleConnector, node);
    out.Write(head);
    if node.Directory? {
      PrintDir(out, node.children, prefix + [MiddleFragment]);
    }
    PrintDir(out, nodes[1..], prefix);
    RenderStep(nodes, prefix);
    AppendFour(before, indent, head, Below(node, prefix + [MiddleFragment]), Render(nodes[1..], prefix));
  }

  /** One step of Render, as printDir takes it. */
  lemma RenderStep(nodes: seq<Node>, prefix: seq<string>)
    requires nodes != []
    ensures |nodes| == 1 ==>
      (Render(nodes, prefix)
       == Join(prefix) + Head(LastConnector, nodes[0]) + Below(nodes[0], prefix + [LastFragment]) + "")
    ensures |nodes| > 1 ==>
      (Render(nodes, prefix)
       == Join(prefix) + Head(MiddleConnector, nodes[0]) + Below(nodes[0], prefix + [MiddleFragment])
          + Render(nodes[1..], prefix))
  {
  }

  /** The writes of one printDir call, regrouped as one appended piece. */
  lemma AppendFour(before: string, indent: string, head: string, below: string, rest: string)
    ensures before + indent + head + below + rest == before + (indent + head + below + rest)
  {
  }

  // ---------------------------------------------------------------------
  // The drawing as a list of lines
  // ---------------------------------------------------------------------

  /** One line of the drawing: the node, whether each enclosing directory
      (outermost first) was the last of its siblings, and whether the node
      itself is the last of its siblings. */
  datatype Line = Line(node: Node, ancestors: seq<bool>, last: bool)

  function Fragment(lastAncestor: bool): string
  {
    if lastAncestor then LastFragment else MiddleFragment
  }

  /** The indentation a line gets from its enclosing directories. */
  function Fragments(ancestors: seq<bool>): (r: seq<string>)
    ensures |r| == |ancestors|
    ensures forall k :: 0 <= k < |r| ==> r[k] == Fragment(ancestors[k])
  {
    if ancestors == [] then []
    else Fragments(ancestors[..|ancestors| - 1]) + [Fragment(ancestors[|ancestors| - 1])]
  }

  function Connector(last: bool): string
  {
    if last then LastConnector else MiddleConnector
  }

  /** The text of one line printed under the base indentation `base`. */
  function LineText(base: seq<string>, v: Line): string
  {
    Join(base + Fragments(v.ancestors)) + Head(Connector(v.last), v.node)
  }

  /** The lines, printed one after another. */
  function Text(base: seq<string>, lines: seq<Line>): string
  {
    if lines == [] then "" else LineText(base, lines[0]) + Text(base, lines[1..])
  }

  /** The lines of the forest in pre-order: each node, then its subtree,
      then its later siblings. */
  function PreOrder(nodes: seq<Node>, ancestors: seq<bool>): seq<Line>
  {
    if nodes == [] then []
    else
      var node, last := nodes[0], |nodes| == 1;
      [Line(node, ancestors, last)]
      + (if node.Directory? then PreOrder(node.children, ancestors + [last]) else [])
      + PreOrder(nodes[1..], ancestors)
  }

  /** The lines at exactly `depth` enclosing directories, in order. */
  function AtDepth(lines: seq<Line>, depth: nat): seq<Line>
  {
    if lines == [] then []
    else (if |lines[0].ancestors| == depth then [lines[0]] else []) + AtDepth(lines[1..], depth)
  }

  /** The number of occurrences of `c` in `s`. */
  function Occurrences(c: char, s: string): nat
  {
    if s == [] then 0 else (if s[0] == c then 1 else 0) + Occurrences(c, s[1..])
  }

  // ---------------------------------------------------------------------
  // Helpers
  // ---------------------------------------------------------------------

  /** Stated on its own so that callers need not rediscover it. */
  lemma AppendAssociative<T>(a: seq<T>, b: seq<T>, c: seq<T>)
    ensures a + (b + c) == (a + b) + c
  {
  }

  lemma {:induction false} JoinAppend(a: seq<string>, b: seq<string>)
    ensures Join(a + b) == Join(a) + Join(b)
  {
    if b != [] {
      var front := b[..|b| - 1];
      JoinAppend(a, front);
      assert (a + b)[..|a + b| - 1] == a + front;
    } else {
      assert a + b == a;
    }
  }

  lemma {:induction false} FragmentsAppend(ancestors: seq<bool>, last: bool)
    ensures Fragments(ancestors + [last]) == Fragments(ancestors) + [Fragment(last)]
  {
    assert (ancestors + [last])[..|ancestors|] == ancestors;
  }

  lemma {:induction false} TextAppend(base: seq<string>, a: seq<Line>, b: seq<Line>)
    ensures Text(base, a + b) == Text(base, a) + Text(base, b)
  {
    if a != [] {
      var first, rest := LineText(base, a[0]), a[1..];
      assert (a + b)[1..] == rest + b;
      assert Text(base, a + b) == first + Text(base, rest + b);
      TextAppend(base, rest, b);
      AppendAssociative(first, Text(base, rest), Text(base, b));
    } else {
      assert a + b == b;
    }
  }

  lemma {:induction false} AtDepthAppend(a: seq<Line>, b: seq<Line>, depth: nat)
    ensures AtDepth(a + b, depth) == AtDepth(a, depth) + AtDepth(b, depth)
  {
    if a != [] {
      AtDepthAppend(a[1..], b, depth);
      assert (a + b)[1..] == a[1..] + b;
    } else {
      assert a + b == b;
    }
  }

  lemma {:induction false} AtDepthNone(lines: seq<Line>, depth: nat)
    requires forall k :: 0 <= k < |lines| ==> |lines[k].ancestors| > depth
    ensures AtDepth(lines, depth) == []
  {
    if lines != [] {
      AtDepthNone(lines[1..], depth);
    }
  }

  lemma {:induction false} OccurrencesAppend(c: char, a: string, b: string)
    ensures Occurrences(c, a + b) == Occurrences(c, a) + Occurrences(c, b)
  {
    if a != [] {
      OccurrencesAppend(c, a[1..], b);
      assert (a + b)[1..] == a[1..] + b;
    } else {
      assert a + b == b;
    }
  }

  lemma {:induction false} OccurrencesAbsent(c: char, s: string)
    requires c !in s
    ensures Occurrences(c, s) == 0
  {
    if s != [] {
      OccurrencesAbsent(c, s[1..]);
    }
  }

  lemma {:induction false} JoinOnOneLine(parts: seq<string>)
    requires forall k :: 0 <= k < |parts| ==> '\n' !in parts[k]
    ensures '\n' !in Join(parts)
  {
    if parts != [] {
      JoinOnOneLine(parts[..|parts| - 1]);
    }
  }

  // ---------------------------------------------------------------------
  // What the drawing means
  // ---------------------------------------------------------------------

  /** printDir's output is the pre-order list of lines, each printed as its
      indentation (the base plus one fragment per enclosing directory), its
      connector, its label and a line break. */
  lemma {:induction false} RenderIsText(nodes: seq<Node>, base: seq<string>, ancestors: seq<bool>)
    ensures Render(nodes, base + Fragments(ancestors)) == Text(base, PreOrder(nodes, ancestors))
    decreases nodes
  {
    if nodes != [] {
      var node, rest, last := nodes[0], nodes[1..], |nodes| == 1;
      var prefix := base + Fragments(ancestors);
      var head := Line(node, ancestors, last);
      var below := if node.Directory? then PreOrder(node.children, ancestors + [last]) else [];
      var after := PreOrder(rest, ancestors);
      var line := Join(prefix) + Head(Connector(last), node);
      var drawnBelow := if node.Directory? then Render(node.children, prefix + [Fragment(last)]) else "";
      assert PreOrder(nodes, ancestors) == [head] + below + after;
      TextAppend(base, [head] + below, after);
      TextAppend(base, [head], below);
      assert Text(base, [head]) == line;
      assert Text(base, below) == drawnBelow by {
        if node.Directory? {
          FragmentsAppend(ancestors, last);
          AppendAssociative(base, Fragments(ancestors), [Fragment(last)]);
          RenderIsText(node.children, base, ancestors + [last]);
        }
      }
      if last {
        assert after == [];
        assert Render(nodes, prefix) == line + drawnBelow;
      } else {
        RenderIsText(rest, base, ancestors);
        assert Render(nodes, prefix) == line + drawnBelow + Render(rest, prefix);
      }
    }
  }

  /** The same, for a top-level call with no enclosing directory. */
  lemma RenderIsPreOrder(nodes: seq<Node>, prefix: seq<string>)
    ensures Render(nodes, prefix) == Text(prefix, PreOrder(nodes, []))
  {
    RenderIsText(nodes, prefix, []);
    assert prefix + Fragments([]) == prefix;
  }

  /** One line per node: the drawing has exactly as many lines as the
      forest has nodes. */
  lemma {:induction false} PreOrderSize(nodes: seq<Node>, ancestors: seq<bool>)
    ensures |PreOrder(nodes, ancestors)| == Size(nodes)
    decreases nodes
  {
    if nodes != [] {
      var node := nodes[0];
      if node.Directory? {
        PreOrderSize(node.children, ancestors + [|nodes| == 1]);
      }
      PreOrderSize(nodes[1..], ancestors);
    }
  }

  /** printDir writes nothing exactly when it is given no nodes. */
  lemma RenderEmpty(nodes: seq<Node>, prefix: seq<string>)
    ensures Render(nodes, prefix) == [] <==> nodes == []
  {
    if nodes != [] {
      var node := nodes[0];
      var head := Head(if |nodes| == 1 then LastConnector else MiddleConnector, node);
      assert |head| > 0;
      assert |Render(nodes, prefix)| >= |head|;
    }
  }

  /** Depth-first pre-order with the right indentation: right after a
      directory's line come exactly the lines of its subtree, drawn with the
      directory's own fragments plus one more (a tab under a last sibling,
      a bar and a tab under any other). */
  lemma SubtreeFollows(nodes: seq<Node>, ancestors: seq<bool>, k: nat)
    requires k < |PreOrder(nodes, ancestors)| && PreOrder(nodes, ancestors)[k].node.Directory?
    ensures var lines, v := PreOrder(nodes, ancestors), PreOrder(nodes, ancestors)[k];
      var end := k + 1 + Size(v.node.children);
      && end <= |lines|
      && lines[k + 1..end] == PreOrder(v.node.children, v.ancestors + [v.last])
  {
    var lines, v := PreOrder(nodes, ancestors), PreOrder(nodes, ancestors)[k];
    var pre, post := SubtreeSplit(nodes, ancestors, k);
    PreOrderSize(v.node.children, v.ancestors + [v.last]);
    Window(lines, pre, v, PreOrder(v.node.children, v.ancestors + [v.last]), post);
  }

  /** The lines around a directory's subtree: what comes before the
      directory's own line, and what comes after its subtree. */
  lemma {:induction false} SubtreeSplit(nodes: seq<Node>, ancestors: seq<bool>, k: nat)
      returns (pre: seq<Line>, post: seq<Line>)
    requires k < |PreOrder(nodes, ancestors)| && PreOrder(nodes, ancestors)[k].node.Directory?
    ensures var lines, v := PreOrder(nodes, ancestors), PreOrder(nodes, ancestors)[k];
      && |pre| == k
      && lines == pre + [v] + PreOrder(v.node.children, v.ancestors + [v.last]) + post
    decreases nodes
  {
    var lines := PreOrder(nodes, ancestors);
    var node, last := nodes[0], |nodes| == 1;
    var head := Line(node, ancestors, last);
    var after := PreOrder(nodes[1..], ancestors);
    PreOrderStep(nodes, ancestors);
    if node.Directory? {
      var below := PreOrder(node.children, ancestors + [last]);
      assert lines == [head] + below + after;
      if k == 0 {
        pre, post := [], after;
        Regroup([head], below, after);
      } else if k <= |below| {
        var j := k - 1;
        InPart(lines, [head], below, after, j, k);
        var p, q := SubtreeSplit(node.children, ancestors + [last], j);
        var v := below[j];
        pre, post := [head] + p, q + after;
        RegroupMiddle(lines, [head], p, [v], PreOrder(v.node.children, v.ancestors + [v.last]), q, after);
      } else {
        var front := [head] + below;
        var j := k - |front|;
        InPart(lines, front, after, [], j, k);
        var p, q := SubtreeSplit(nodes[1..], ancestors, j);
        var v := after[j];
        pre, post := front + p, q;
        RegroupLast(lines, front, p, [v], PreOrder(v.node.children, v.ancestors + [v.last]), q);
      }
    } else {
      assert lines == [head] + after + [];
      var j := k - 1;
      InPart(lines, [head], after, [], j, k);
      var p, q := SubtreeSplit(nodes[1..], ancestors, j);
      var v := after[j];
      pre, post := [head] + p, q;
      RegroupLast(lines, [head], p, [v], PreOrder(v.node.children, v.ancestors + [v.last]), q);
    }
  }

  /** One step of PreOrder. */
  lemma PreOrderStep(nodes: seq<Node>, ancestors: seq<bool>)
    requires nodes != []
    ensures PreOrder(nodes, ancestors)
      == [Line(nodes[0], ancestors, |nodes| == 1)]
         + (if nodes[0].Directory? then PreOrder(nodes[0].children, ancestors + [|nodes| == 1]) else [])
         + PreOrder(nodes[1..], ancestors)
  {
  }

  // The regrouping lemmas below state one rearrangement of a concatenation
  // over abstract pieces, so that the caller's proof does not have to find
  // it among all the facts about `PreOrder` in scope.

  lemma Regroup<T>(head: seq<T>, below: seq<T>, after: seq<T>)
    ensures head + below + after == [] + head + below + after
  {
  }

  lemma RegroupMiddle<T>(lines: seq<T>, head: seq<T>, p: seq<T>, v: seq<T>, sub: seq<T>, q: seq<T>, after: seq<T>)
    requires lines == head + (p + v + sub + q) + after
    ensures lines == (head + p) + v + sub + (q + after)
  {
    AppendAssociative(head, p + v + sub + q, after);
    assert head + (p + v + sub + q) == head + p + v + sub + q;
  }

  lemma RegroupLast<T>(lines: seq<T>, front: seq<T>, p: seq<T>, v: seq<T>, sub: seq<T>, q: seq<T>)
    requires lines == front + (p + v + sub + q)
    ensures lines == (front + p) + v + sub + q
  {
    assert front + (p + v + sub + q) == front + p + v + sub + q;
  }

  /** A position inside the middle part of a concatenation. */
  lemma InPart<T>(lines: seq<T>, front: seq<T>, part: seq<T>, back: seq<T>, j: nat, k: nat)
    requires lines == front + part + back && j < |part| && k == |front| + j
    ensures k < |lines| && lines[k] == part[j]
  {
  }

  /** The stretch right after a given element. */
  lemma Window<T>(lines: seq<T>, pre: seq<T>, v: T, sub: seq<T>, post: seq<T>)
    requires lines == pre + [v] + sub + post
    ensures lines[|pre|] == v
    ensures |pre| + 1 + |sub| <= |lines| && lines[|pre| + 1..|pre| + 1 + |sub|] == sub
  {
    assert lines[|pre| + 1..|pre| + 1 + |sub|] == sub;
  }

  /** Every line below a call lies inside that call's enclosing directories:
      its ancestors extend theirs. */
  lemma {:induction false} PreOrderNested(nodes: seq<Node>, ancestors: seq<bool>)
    ensures forall k :: 0 <= k < |PreOrder(nodes, ancestors)| ==>
      var v := PreOrder(nodes, ancestors)[k];
      |v.ancestors| >= |ancestors| && v.ancestors[..|ancestors|] == ancestors
    decreases nodes
  {
    if nodes != [] {
      var node, last := nodes[0], |nodes| == 1;
      var below := if node.Directory? then PreOrder(node.children, ancestors + [last]) else [];
      var after := PreOrder(nodes[1..], ancestors);
      var all := PreOrder(nodes, ancestors);
      assert all == [Line(node, ancestors, last)] + below + after;
      if node.Directory? {
        PreOrderNested(node.children, ancestors + [last]);
      }
      PreOrderNested(nodes[1..], ancestors);
      forall k | 0 <= k < |all|
        ensures |all[k].ancestors| >= |ancestors| && all[k].ancestors[..|ancestors|] == ancestors
      {
        if 0 < k <= |below| {
          var a := below[k - 1].ancestors;
          assert a[..|ancestors| + 1] == ancestors + [last];
          assert a[..|ancestors|] == a[..|ancestors| + 1][..|ancestors|];
        } else if k > |below| {
          assert all[k] == after[k - 1 - |below|];
        }
      }
    }
  }

  /** The connectors are right: the lines drawn at a call's own depth are
      exactly its nodes in order, and only the final one is marked last
      (drawn with `└───`); every other is drawn with `├───`. */
  lemma {:induction false} SiblingsConnected(nodes: seq<Node>, ancestors: seq<bool>)
    ensures var top := AtDepth(PreOrder(nodes, ancestors), |ancestors|);
      && |top| == |nodes|
      && forall k :: 0 <= k < |nodes| ==> top[k] == Line(nodes[k], ancestors, k == |nodes| - 1)
    decreases nodes
  {
    if nodes != [] {
      var node, rest, last := nodes[0], nodes[1..], |nodes| == 1;
      var head := Line(node, ancestors, last);
      var below := if node.Directory? then PreOrder(node.children, ancestors + [last]) else [];
      var after := PreOrder(rest, ancestors);
      var d := |ancestors|;
      assert PreOrder(nodes, ancestors) == [head] + below + after;
      AtDepthAppend([head] + below, after, d);
      AtDepthAppend([head], below, d);
      assert AtDepth([head], d) == [head];
      if node.Directory? {
        PreOrderNested(node.children, ancestors + [last]);
      }
      AtDepthNone(below, d);
      SiblingsConnected(rest, ancestors);
      var top := AtDepth(PreOrder(nodes, ancestors), d);
      assert top == [head] + AtDepth(after, d);
      forall k | 0 <= k < |nodes|
        ensures top[k] == Line(nodes[k], ancestors, k == |nodes| - 1)
      {
        if k > 0 {
          assert top[k] == AtDepth(after, d)[k - 1];
        }
      }
    }
  }

  /** Every line is the label of a node of the forest, so if no name holds a
      line break, no label does. */
  lemma {:induction false} PreOrderOnOneLine(nodes: seq<Node>, ancestors: seq<bool>)
    requires NamesOnOneLine(nodes)
    ensures forall k :: 0 <= k < |PreOrder(nodes, ancestors)| ==>
      '\n' !in PreOrder(nodes, ancestors)[k].node.name
    decreases nodes
  {
    if nodes != [] {
      var node, last := nodes[0], |nodes| == 1;
      var below := if node.Directory? then PreOrder(node.children, ancestors + [last]) else [];
      var after := PreOrder(nodes[1..], ancestors);
      var all := PreOrder(nodes, ancestors);
      assert all == [Line(node, ancestors, last)] + below + after;
      if node.Directory? {
        PreOrderOnOneLine(node.children, ancestors + [last]);
      }
      assert NamesOnOneLine(nodes[1..]) by {
        forall k | 0 <= k < |nodes[1..]|
          ensures '\n' !in nodes[1..][k].name
            && (nodes[1..][k].Directory? ==> NamesOnOneLine(nodes[1..][k].children))
        {
          assert nodes[1..][k] == nodes[k + 1];
        }
      }
      PreOrderOnOneLine(nodes[1..], ancestors);
      forall k | 0 <= k < |all|
        ensures '\n' !in all[k].node.name
      {
        if k > |below| {
          assert all[k] == after[k - 1 - |below|];
        }
      }
    }
  }

  /** Printed lines whose labels and indentation hold no line break hold
      exactly one each. */
  lemma {:induction false} TextLineBreaks(base: seq<string>, lines: seq<Line>)
    requires forall k :: 0 <= k < |base| ==> '\n' !in base[k]
    requires forall k :: 0 <= k < |lines| ==> '\n' !in lines[k].node.name
    ensures Occurrences('\n', Text(base, lines)) == |lines|
  {
    if lines != [] {
      var v := lines[0];
      var indent := base + Fragments(v.ancestors);
      JoinOnOneLine(indent);
      LabelOnOneLine(v.node);
      var body := Join(indent) + Connector(v.last) + Label(v.node);
      assert '\n' !in body;
      OccurrencesAbsent('\n', body);
      OccurrencesAppend('\n', body, "\n");
      AppendAssociative(Join(indent), Connector(v.last), Label(v.node));
      AppendAssociative(Join(indent), Connector(v.last) + Label(v.node), "\n");
      assert LineText(base, v) == body + "\n";
      OccurrencesAppend('\n', LineText(base, v), Text(base, lines[1..]));
      TextLineBreaks(base, lines[1..]);
    }
  }

  /** When no name holds a line break, printDir writes exactly one line per
      node of the forest, at every depth. */
  lemma RenderLineCount(nodes: seq<Node>, prefix: seq<string>)
    requires forall k :: 0 <= k < |prefix| ==> '\n' !in prefix[k]
    requires NamesOnOneLine(nodes)
    ensures Occurrences('\n', Render(nodes, prefix)) == Size(nodes)
  {
    RenderIsPreOrder(nodes, prefix);
    PreOrderOnOneLine(nodes, []);
    TextLineBreaks(prefix, PreOrder(nodes, []));
    PreOrderSize(nodes, []);
  }
}
