// The content model of a Feishu "post" message: a paragraph is a list of
// inline nodes, each either plain text (`{"tag": "text", "text": …}`) or a
// hyperlink (`{"tag": "a", "text": …, "href": …}`).

module Post {

  datatype Node = Text(text: string) | Link(text: string, href: string)

  type Paragraph = seq<Node>

  /** The markdown a node was read from: text as is, a link as `[label](href)`. */
  function RenderNode(n: Node): string {
    match n
    case Text(t) => t
    case Link(l, h) => "[" + l + "](" + h + ")"
  }

  /** The markdown of a sequence of nodes. */
  function Render(p: Paragraph): string {
    if p == [] then [] else RenderNode(p[0]) + Render(p[1..])
  }

  lemma RenderSingle(n: Node)
    ensures Render([n]) == RenderNode(n)
  {
    assert [n][1..] == [];
  }

  lemma {:induction false} RenderAppend(p: Paragraph, q: Paragraph)
    ensures Render(p + q) == Render(p) + Render(q)
  {
    if p == [] {
      assert p + q == q;
    } else {
      assert (p + q)[0] == p[0];
      assert (p + q)[1..] == p[1..] + q;
      RenderAppend(p[1..], q);
    }
  }

  /** The links of a sequence of nodes, in order. */
  function Links(p: Paragraph): seq<Node> {
    if p == [] then []
    else (if p[0].Link? then [p[0]] else []) + Links(p[1..])
  }

  lemma {:induction false} LinksAppend(p: Paragraph, q: Paragraph)
    ensures Links(p + q) == Links(p) + Links(q)
  {
    if p == [] {
      assert p + q == q;
    } else {
      assert (p + q)[0] == p[0];
      assert (p + q)[1..] == p[1..] + q;
      LinksAppend(p[1..], q);
    }
  }
}
