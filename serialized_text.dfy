/** SerializedText: the text a serializer writes for a sequence of
    callbacks, when each callback appends a text that depends only on its
    own arguments. Both text serializers are instances, with their own
    `text` function. */
module SerializedText {
  import opened NodeFactory
  import opened TreeView
  import opened WriteTreeTraversal

  /** The texts of the callbacks, one after the other. */
  function Render(text: Event -> string, es: seq<Event>): (r: string)
    ensures es == [] ==> r == ""
  {
    if es == [] then "" else text(es[0]) + Render(text, es[1..])
  }

  lemma {:induction false} RenderAppend(text: Event -> string, a: seq<Event>, b: seq<Event>)
    ensures Render(text, a + b) == Render(text, a) + Render(text, b)
  {
    if a != [] {
      assert (a + b)[0] == a[0];
      assert (a + b)[1..] == a[1..] + b;
      RenderAppend(text, a[1..], b);
    } else {
      assert a + b == b;
    }
  }

  lemma RenderOne(text: Event -> string, e: Event)
    ensures Render(text, [e]) == text(e)
  {
    assert [e][1..] == [];
  }

  /** Writing the text of the next callback after that of the first i. */
  lemma RenderStep(text: Event -> string, es: seq<Event>, i: nat, start: string)
    requires i < |es|
    ensures start + Render(text, es[..i]) + text(es[i]) == start + Render(text, es[..i + 1])
  {
    RenderAppend(text, es[..i], [es[i]]);
    RenderOne(text, es[i]);
    assert es[..i + 1] == es[..i] + [es[i]];
  }

  /** The text of one node's callbacks around those of its children. */
  lemma NodeEventsText(text: Event -> string, n: Node, depth: nat, revisit: bool, inner: seq<Event>)
    ensures var b, t, a := BeforeTraversing(n, depth, revisit), Traversing(n, depth, revisit),
        AfterTraversing(n, depth, revisit);
      Render(text, [b, t] + inner + [a]) == text(b) + text(t) + Render(text, inner) + text(a)
  {
    var b, t, a := BeforeTraversing(n, depth, revisit), Traversing(n, depth, revisit), AfterTraversing(n, depth, revisit);
    RenderAppend(text, [b, t] + inner, [a]);
    RenderAppend(text, [b, t], inner);
    RenderAppend(text, [b], [t]);
    assert [b, t] == [b] + [t];
    RenderOne(text, a);
    RenderOne(text, b);
    RenderOne(text, t);
  }

  /** The callbacks of a walk between beginTraverse and endTraverse. */
  lemma FramedText(text: Event -> string, w: seq<Event>)
    ensures Render(text, [BeginTraverse] + w + [EndTraverse]) ==
      text(BeginTraverse) + Render(text, w) + text(EndTraverse)
  {
    RenderAppend(text, [BeginTraverse] + w, [EndTraverse]);
    RenderAppend(text, [BeginTraverse], w);
    RenderOne(text, BeginTraverse);
    RenderOne(text, EndTraverse);
  }

  /** The text of the whole walk of a tree that is a single leaf. */
  lemma LeafWalkText(text: Event -> string, v: View, root: Node)
    requires Coherent(v) && v.leaf(root)
    ensures Render(text, TraverseEvents(v, root)) ==
      text(BeginTraverse) + (text(BeforeTraversing(root, 0, false)) + text(Traversing(root, 0, false)) +
      text(AfterTraversing(root, 0, false))) + text(EndTraverse)
  {
    var w := WalkNodeUnfold(v, root, 0, {});
    NodeEventsText(text, root, 0, false, []);
    assert [BeforeTraversing(root, 0, false), Traversing(root, 0, false)] + [] + [AfterTraversing(root, 0, false)] ==
      WalkNode(v, root, 0, {}).0;
    FramedText(text, WalkNode(v, root, 0, {}).0);
  }
}
