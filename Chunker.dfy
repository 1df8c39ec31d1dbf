// The packing loop of `feishu_push_from_file` (yarb.py:232-264): paragraphs
// are packed whole into a buffer while the payload stays within the budget;
// a paragraph that does not fit is rebuilt node by node, text nodes cut into
// pieces of at most half the budget, and a group is sent whenever the next
// node would push it over. Sending a chunk is appending it to the output.

module Chunker {
  import opened Utf8
  import opened Sequences
  import opened Post
  import opened ByteSplit
  import opened Payload
  import opened Markdown
  import opened PyText

  /** `MAX_BODY_SIZE`: the largest payload, in bytes, the webhook accepts. */
  const MaxBodySize: nat := 20 * 1024

  // What a paragraph becomes when it is rebuilt.

  function TextNodes(pieces: seq<string>): Paragraph {
    seq(|pieces|, i requires 0 <= i < |pieces| => Text(pieces[i]))
  }

  /** A link stays whole; a text node becomes one text node per piece
      `split_text_by_bytes` yields. */
  function DecomposeNode(n: Node, maxBytes: int): Paragraph {
    match n
    case Text(t) => TextNodes(SplitText(t, maxBytes))
    case Link(_, _) => [n]
  }

  function Decompose(p: Paragraph, maxBytes: int): Paragraph {
    if p == [] then [] else DecomposeNode(p[0], maxBytes) + Decompose(p[1..], maxBytes)
  }

  lemma {:induction false} DecomposeAppend(p: Paragraph, q: Paragraph, maxBytes: int)
    ensures Decompose(p + q, maxBytes) == Decompose(p, maxBytes) + Decompose(q, maxBytes)
  {
    if p == [] {
      assert p + q == q;
    } else {
      assert (p + q)[0] == p[0];
      assert (p + q)[1..] == p[1..] + q;
      DecomposeAppend(p[1..], q, maxBytes);
    }
  }

  lemma DecomposeStep(p: Paragraph, j: nat, maxBytes: int)
    requires j < |p|
    ensures Decompose(p[..j + 1], maxBytes) == Decompose(p[..j], maxBytes) + DecomposeNode(p[j], maxBytes)
  {
    assert p[..j + 1] == p[..j] + [p[j]];
    DecomposeAppend(p[..j], [p[j]], maxBytes);
    assert [p[j]][1..] == [];
  }

  lemma {:induction false} TextNodesRender(pieces: seq<string>)
    ensures Render(TextNodes(pieces)) == Concat(pieces)
    ensures Links(TextNodes(pieces)) == []
  {
    if pieces != [] {
      TextNodesRender(pieces[1..]);
      assert TextNodes(pieces)[1..] == TextNodes(pieces[1..]);
    }
  }

  /** Rebuilding a paragraph keeps its markdown: the pieces of each text
      node, laid end to end, are that text. */
  lemma {:induction false} DecomposeRender(p: Paragraph, maxBytes: int)
    ensures Render(Decompose(p, maxBytes)) == Render(p)
    ensures Links(Decompose(p, maxBytes)) == Links(p)
  {
    if p != [] {
      var head := DecomposeNode(p[0], maxBytes);
      DecomposeRender(p[1..], maxBytes);
      RenderAppend(head, Decompose(p[1..], maxBytes));
      LinksAppend(head, Decompose(p[1..], maxBytes));
      match p[0]
      case Text(t) =>
        TextNodesRender(SplitText(t, maxBytes));
      case Link(_, _) =>
        RenderSingle(p[0]);
        assert [p[0]][1..] == [];
    }
  }

  /** With a limit of at least four bytes (the longest UTF-8 character),
      every piece of a rebuilt text node is non-empty and within the limit. */
  lemma {:induction false} DecomposePiecesFit(p: Paragraph, maxBytes: int)
    requires maxBytes >= 4
    ensures forall k :: 0 <= k < |Decompose(p, maxBytes)| && Decompose(p, maxBytes)[k].Text? ==>
      Decompose(p, maxBytes)[k].text != [] && Length(Decompose(p, maxBytes)[k].text) <= maxBytes
  {
    if p != [] {
      DecomposePiecesFit(p[1..], maxBytes);
      var head: Paragraph, tail: Paragraph := DecomposeNode(p[0], maxBytes), Decompose(p[1..], maxBytes);
      assert Decompose(p, maxBytes) == head + tail;
      if p[0].Text? {
        PiecesFit(p[0].text, maxBytes);
      }
      forall k | 0 <= k < |head + tail| && (head + tail)[k].Text?
        ensures (head + tail)[k].text != [] && Length((head + tail)[k].text) <= maxBytes
      {
        if k >= |head| {
          assert (head + tail)[k] == tail[k - |head|];
        }
      }
    }
  }

  lemma PiecesFit(t: string, maxBytes: int)
    requires maxBytes >= 4
    ensures forall k :: 0 <= k < |SplitText(t, maxBytes)| ==>
      SplitText(t, maxBytes)[k] != [] && Length(SplitText(t, maxBytes)[k]) <= maxBytes
  {
    var ps := SplitText(t, maxBytes);
    forall k | 0 <= k < |ps| ensures ps[k] != [] && Length(ps[k]) <= maxBytes {
      if k == 0 && t != [] {
        assert CharLength(t[0]) <= 4;
      }
      if |ps[k]| == 1 {
        SingleLength(ps[k][0]);
        assert ps[k] == [ps[k][0]];
      }
    }
  }

  // The rebuild of a paragraph, as a function: each node in turn either
  // joins the open group or, when the group with it would not fit, has the
  // open group sent as a chunk of its own and opens the next one.

  /** The chunks sent so far and the open group, `new_para`. */
  datatype Rebuild = Rebuild(sent: seq<seq<Paragraph>>, newPara: Paragraph)

  function Place(title: string, budget: int, r: Rebuild, n: Node): Rebuild {
    if |BuildPostPayload(title, [r.newPara + [n]])| > budget then Rebuild(r.sent + [[r.newPara]], [n])
    else Rebuild(r.sent, r.newPara + [n])
  }

  function PlaceAll(title: string, budget: int, r: Rebuild, nodes: Paragraph): Rebuild
    decreases |nodes|
  {
    if nodes == [] then r
    else Place(title, budget, PlaceAll(title, budget, r, nodes[..|nodes| - 1]), nodes[|nodes| - 1])
  }

  // The guarantees the loop keeps.

  /** A group that is sent on its own fits, or holds at most one node. */
  ghost predicate GroupFits(title: string, g: Paragraph, budget: int) {
    |BuildPostPayload(title, [g])| <= budget || |g| <= 1
  }

  /** A chunk is never empty, and fits unless it is one group of at most
      one node. */
  ghost predicate ChunkFits(title: string, c: seq<Paragraph>, budget: int) {
    c != [] && (|BuildPostPayload(title, c)| <= budget || (|c| == 1 && |c[0]| <= 1))
  }

  /** The state of a rebuild: the chunks sent so far are single groups that
      fit, the open group fits, and together they hold `nodes` in order. */
  ghost predicate Placed(title: string, budget: int, sent: seq<seq<Paragraph>>, group: Paragraph, nodes: Paragraph) {
    && (forall i :: 0 <= i < |sent| ==> |sent[i]| == 1 && GroupFits(title, sent[i][0], budget))
    && GroupFits(title, group, budget)
    && Concat(Concat(sent)) + group == nodes
  }

  lemma PlaceStep(title: string, budget: int, r: Rebuild, nodes: Paragraph, n: Node)
    requires Placed(title, budget, r.sent, r.newPara, nodes)
    ensures var q := Place(title, budget, r, n);
      Placed(title, budget, q.sent, q.newPara, nodes + [n])
  {
    if |BuildPostPayload(title, [r.newPara + [n]])| > budget {
      SendGroup(title, budget, r.sent, r.newPara, nodes, n);
    } else {
      var done := Concat(Concat(r.sent));
      assert done + (r.newPara + [n]) == (done + r.newPara) + [n];
    }
  }

  /** Sending the open group and starting a new one with `n`. */
  lemma SendGroup(title: string, budget: int, sent: seq<seq<Paragraph>>, group: Paragraph, nodes: Paragraph, n: Node)
    requires Placed(title, budget, sent, group, nodes)
    ensures Placed(title, budget, sent + [[group]], [n], nodes + [n])
  {
    var sent' := sent + [[group]];
    ConcatSnoc(sent, [group]);
    ConcatSnoc(Concat(sent), group);
    forall i | 0 <= i < |sent'| ensures |sent'[i]| == 1 && GroupFits(title, sent'[i][0], budget) {
      if i < |sent| {
        assert sent'[i] == sent[i];
      }
    }
  }

  lemma TextNodesSnoc(pieces: seq<string>, i: nat)
    requires i < |pieces|
    ensures TextNodes(pieces[..i + 1]) == TextNodes(pieces[..i]) + [Text(pieces[i])]
  {
    assert TextNodes(pieces[..i + 1])[..i] == TextNodes(pieces[..i]);
  }

  lemma PlaceAllSnoc(title: string, budget: int, r: Rebuild, nodes: Paragraph, n: Node)
    ensures PlaceAll(title, budget, r, nodes + [n]) == Place(title, budget, PlaceAll(title, budget, r, nodes), n)
  {
    assert (nodes + [n])[..|nodes|] == nodes;
  }

  lemma {:induction false} PlaceAllAppend(title: string, budget: int, r: Rebuild, xs: Paragraph, ys: Paragraph)
    ensures PlaceAll(title, budget, r, xs + ys) == PlaceAll(title, budget, PlaceAll(title, budget, r, xs), ys)
    decreases |ys|
  {
    if ys == [] {
      assert xs + ys == xs;
    } else {
      var init, last := ys[..|ys| - 1], ys[|ys| - 1];
      assert xs + ys == (xs + init) + [last];
      PlaceAllSnoc(title, budget, r, xs + init, last);
      PlaceAllAppend(title, budget, r, xs, init);
    }
  }

  /** Placing nodes one by one keeps the guarantees of a rebuild. */
  lemma {:induction false} PlaceAllPlaced(title: string, budget: int, r: Rebuild, before: Paragraph, nodes: Paragraph)
    requires Placed(title, budget, r.sent, r.newPara, before)
    ensures var q := PlaceAll(title, budget, r, nodes);
      Placed(title, budget, q.sent, q.newPara, before + nodes)
    decreases |nodes|
  {
    if nodes == [] {
      assert before + nodes == before;
    } else {
      var init, last := nodes[..|nodes| - 1], nodes[|nodes| - 1];
      PlaceAllPlaced(title, budget, r, before, init);
      PlaceStep(title, budget, PlaceAll(title, budget, r, init), before + init, last);
      AppendLast(before, nodes);
    }
  }

  lemma AppendLast(before: Paragraph, nodes: Paragraph)
    requires nodes != []
    ensures before + nodes == (before + nodes[..|nodes| - 1]) + [nodes[|nodes| - 1]]
  {
    assert nodes == nodes[..|nodes| - 1] + [nodes[|nodes| - 1]];
  }

  /** Rebuilding a paragraph from nothing: every chunk it sends is one group
      that fits or holds at most one node, so does the group it leaves open,
      and together they hold the paragraph's nodes, text cut into pieces. */
  lemma RebuildPlaced(title: string, budget: int, para: Paragraph)
    ensures var r := PlaceAll(title, budget, Rebuild([], []), Decompose(para, budget / 2));
      Placed(title, budget, r.sent, r.newPara, Decompose(para, budget / 2))
  {
    var nodes := Decompose(para, budget / 2);
    assert Placed(title, budget, [], [], []);
    PlaceAllPlaced(title, budget, Rebuild([], []), [], nodes);
    assert [] + nodes == nodes;
  }

  /** Lines 242-258 for one paragraph that did not fit: the single-group
      chunks sent along the way, and the group left open at the end. */
  method RebuildParagraph(title: string, para: Paragraph, budget: nat) returns (sent: seq<seq<Paragraph>>, newPara: Paragraph)
    ensures Rebuild(sent, newPara) == PlaceAll(title, budget, Rebuild([], []), Decompose(para, budget / 2))
  {
    sent, newPara := [], [];
    for j := 0 to |para|
      invariant Rebuild(sent, newPara) == PlaceAll(title, budget, Rebuild([], []), Decompose(para[..j], budget / 2))
    {
      var node := para[j];
      ghost var before := Decompose(para[..j], budget / 2);
      DecomposeStep(para, j, budget / 2);
      if !node.Text? {
        assert [node] == DecomposeNode(node, budget / 2);
        PlaceAllSnoc(title, budget, Rebuild([], []), before, node);
        if |BuildPostPayload(title, [newPara + [node]])| > budget {
          sent := sent + [[newPara]];
          newPara := [node];
        } else {
          newPara := newPara + [node];
        }
      } else {
        var pieces := SplitTextByBytes(node.text, budget / 2);
        PlaceAllAppend(title, budget, Rebuild([], []), before, TextNodes(pieces));
        sent, newPara := PlacePieces(title, budget, sent, newPara, pieces);
      }
    }
    assert para[..|para|] == para;
  }

  /** The inner loop of lines 252-258: the pieces of one text node, placed
      one after another as text nodes. */
  method PlacePieces(title: string, budget: nat, sent0: seq<seq<Paragraph>>, newPara0: Paragraph, pieces: seq<string>)
    returns (sent: seq<seq<Paragraph>>, newPara: Paragraph)
    ensures Rebuild(sent, newPara) == PlaceAll(title, budget, Rebuild(sent0, newPara0), TextNodes(pieces))
  {
    sent, newPara := sent0, newPara0;
    assert TextNodes(pieces[..0]) == [];
    for i := 0 to |pieces|
      invariant Rebuild(sent, newPara) == PlaceAll(title, budget, Rebuild(sent0, newPara0), TextNodes(pieces[..i]))
    {
      var tnode := Text(pieces[i]);
      TextNodesSnoc(pieces, i);
      PlaceAllSnoc(title, budget, Rebuild(sent0, newPara0), TextNodes(pieces[..i]), tnode);
      if |BuildPostPayload(title, [newPara + [tnode]])| > budget {
        sent := sent + [[newPara]];
        newPara := [tnode];
      } else {
        newPara := newPara + [tnode];
      }
    }
    assert pieces[..|pieces|] == pieces;
  }

  /** Each paragraph becomes a run of groups of the output: either itself,
      packed whole, or the groups its rebuild produced. */
  ghost predicate Partition(paragraphs: seq<Paragraph>, parts: seq<seq<Paragraph>>, maxBytes: int) {
    && |parts| == |paragraphs|
    && (forall k :: 0 <= k < |parts| ==> PartOf(paragraphs[k], parts[k], maxBytes))
  }

  ghost predicate PartOf(para: Paragraph, part: seq<Paragraph>, maxBytes: int) {
    part == [para] || Concat(part) == Decompose(para, maxBytes)
  }

  /** Every chunk sent so far fits. */
  ghost predicate AllFit(title: string, chunks: seq<seq<Paragraph>>, budget: int) {
    forall i :: 0 <= i < |chunks| ==> ChunkFits(title, chunks[i], budget)
  }

  /** The state of the packing loop after the paragraphs `done`: the chunks
      sent and the buffer hold their groups in order, and everything sent
      or buffered fits. */
  ghost predicate Packing(title: string, budget: int, done: seq<Paragraph>,
                          chunks: seq<seq<Paragraph>>, buffer: seq<Paragraph>, parts: seq<seq<Paragraph>>) {
    && Partition(done, parts, budget / 2)
    && Concat(chunks) + buffer == Concat(parts)
    && AllFit(title, chunks, budget)
    && (buffer == [] || ChunkFits(title, buffer, budget))
  }

  /** The groups a rebuilt paragraph contributes: what was sent, then the
      open group unless it is empty. */
  ghost function Rebuilt(sent: seq<seq<Paragraph>>, newPara: Paragraph): seq<Paragraph> {
    Concat(sent) + (if newPara == [] then [] else [newPara])
  }

  // The packing loop, as a function.

  /** The chunks sent so far and the buffer not yet sent. */
  datatype PackState = PackState(chunks: seq<seq<Paragraph>>, buffer: seq<Paragraph>)

  /** One paragraph: packed whole into the buffer when that fits; otherwise
      the buffer is sent, the paragraph is rebuilt, and its open group
      becomes the new buffer. Chunks once sent stay sent, and if what was
      sent and buffered fitted before, it still does. */
  function PackStep(title: string, budget: nat, s: PackState, para: Paragraph): (r: PackState)
    ensures s.chunks <= r.chunks
    ensures AllFit(title, s.chunks, budget) && (s.buffer == [] || ChunkFits(title, s.buffer, budget))
      ==> AllFit(title, r.chunks, budget) && (r.buffer == [] || ChunkFits(title, r.buffer, budget))
  {
    if |BuildPostPayload(title, s.buffer + [para])| <= budget then PackState(s.chunks, s.buffer + [para])
    else
      var flushed := if s.buffer != [] then s.chunks + [s.buffer] else s.chunks;
      var r := PlaceAll(title, budget, Rebuild([], []), Decompose(para, budget / 2));
      RebuildFits(title, budget, s.chunks, s.buffer, para);
      PackState(flushed + r.sent, if r.newPara != [] then [r.newPara] else [])
  }

  /** Sending the buffer and then what a rebuild sends keeps every chunk
      fitting, and the rebuild's open group fits as a chunk of its own. */
  lemma RebuildFits(title: string, budget: nat, chunks: seq<seq<Paragraph>>, buffer: seq<Paragraph>, para: Paragraph)
    ensures var flushed := if buffer != [] then chunks + [buffer] else chunks;
      var r := PlaceAll(title, budget, Rebuild([], []), Decompose(para, budget / 2));
      && chunks <= flushed + r.sent
      && (AllFit(title, chunks, budget) && (buffer == [] || ChunkFits(title, buffer, budget))
          ==> AllFit(title, flushed + r.sent, budget) && (r.newPara == [] || ChunkFits(title, [r.newPara], budget)))
  {
    var flushed := if buffer != [] then chunks + [buffer] else chunks;
    var r := PlaceAll(title, budget, Rebuild([], []), Decompose(para, budget / 2));
    RebuildPlaced(title, budget, para);
    assert (flushed + r.sent)[..|chunks|] == chunks;
    if AllFit(title, chunks, budget) && (buffer == [] || ChunkFits(title, buffer, budget)) {
      FlushFits(title, budget, chunks, buffer);
      SentFit(title, budget, flushed, r.sent);
    }
  }

  lemma FlushFits(title: string, budget: nat, chunks: seq<seq<Paragraph>>, buffer: seq<Paragraph>)
    requires AllFit(title, chunks, budget) && (buffer == [] || ChunkFits(title, buffer, budget))
    ensures AllFit(title, if buffer != [] then chunks + [buffer] else chunks, budget)
  {
    if buffer != [] {
      var flushed := chunks + [buffer];
      forall i | 0 <= i < |flushed| ensures ChunkFits(title, flushed[i], budget) {
        if i < |chunks| {
          assert flushed[i] == chunks[i];
        }
      }
    }
  }

  function PackAll(title: string, budget: nat, paragraphs: seq<Paragraph>): PackState
    decreases |paragraphs|
  {
    if paragraphs == [] then PackState([], [])
    else PackStep(title, budget, PackAll(title, budget, paragraphs[..|paragraphs| - 1]), paragraphs[|paragraphs| - 1])
  }

  /** Every chunk the packing sends, the last buffer included. Each is
      non-empty and fits the budget unless it is one group of at most one
      node. */
  function Chunks(title: string, paragraphs: seq<Paragraph>, budget: nat): (chunks: seq<seq<Paragraph>>)
    ensures forall i :: 0 <= i < |chunks| ==> ChunkFits(title, chunks[i], budget)
  {
    var s := PackAll(title, budget, paragraphs);
    PackAllFits(title, budget, paragraphs);
    if s.buffer != [] then s.chunks + [s.buffer] else s.chunks
  }

  /** Everything the packing has sent or buffered fits. */
  lemma {:induction false} PackAllFits(title: string, budget: nat, paragraphs: seq<Paragraph>)
    ensures var s := PackAll(title, budget, paragraphs);
      AllFit(title, s.chunks, budget) && (s.buffer == [] || ChunkFits(title, s.buffer, budget))
    decreases |paragraphs|
  {
    if paragraphs != [] {
      PackAllFits(title, budget, paragraphs[..|paragraphs| - 1]);
    }
  }

  lemma PackAllStep(title: string, budget: nat, paragraphs: seq<Paragraph>, k: nat)
    requires k < |paragraphs|
    ensures PackAll(title, budget, paragraphs[..k + 1]) == PackStep(title, budget, PackAll(title, budget, paragraphs[..k]), paragraphs[k])
  {
    assert paragraphs[..k + 1][..k] == paragraphs[..k];
  }

  /** The packing loop. `parts` records, paragraph by paragraph, the groups
      the chunks are made of. */
  method Pack(title: string, paragraphs: seq<Paragraph>, budget: nat) returns (chunks: seq<seq<Paragraph>>, ghost parts: seq<seq<Paragraph>>)
    ensures chunks == Chunks(title, paragraphs, budget)
    ensures Partition(paragraphs, parts, budget / 2)
    ensures Concat(chunks) == Concat(parts)
    ensures forall i :: 0 <= i < |chunks| ==> ChunkFits(title, chunks[i], budget)
  {
    chunks, parts := [], [];
    var buffer: seq<Paragraph> := [];
    for k := 0 to |paragraphs|
      invariant PackState(chunks, buffer) == PackAll(title, budget, paragraphs[..k])
      invariant Packing(title, budget, paragraphs[..k], chunks, buffer, parts)
    {
      var para := paragraphs[k];
      PackAllStep(title, budget, paragraphs, k);
      if |BuildPostPayload(title, buffer + [para])| <= budget {
        PackWhole(title, budget, paragraphs, k, chunks, buffer, parts);
        buffer := buffer + [para];
        parts := parts + [[para]];
      } else {
        if buffer != [] {
          FlushStep(title, budget, paragraphs[..k], chunks, buffer, parts);
          chunks := chunks + [buffer];
          buffer := [];
        }
        var sent, newPara := RebuildParagraph(title, para, budget);
        RebuildPlaced(title, budget, para);
        PackRebuilt(title, budget, paragraphs, k, chunks, parts, sent, newPara);
        chunks := chunks + sent;
        // The buffer was flushed above, so appending to it starts it afresh.
        assert buffer == [];
        if newPara != [] {
          buffer := [newPara];
        }
        parts := parts + [Rebuilt(sent, newPara)];
      }
    }
    assert paragraphs[..|paragraphs|] == paragraphs;
    if buffer != [] {
      FlushStep(title, budget, paragraphs, chunks, buffer, parts);
      chunks := chunks + [buffer];
    }
  }

  lemma PartitionStep(paragraphs: seq<Paragraph>, k: nat, parts: seq<seq<Paragraph>>, part: seq<Paragraph>, maxBytes: int)
    requires k < |paragraphs| && Partition(paragraphs[..k], parts, maxBytes)
    requires PartOf(paragraphs[k], part, maxBytes)
    ensures Partition(paragraphs[..k + 1], parts + [part], maxBytes)
  {
    var ps, qs := paragraphs[..k + 1], parts + [part];
    forall i | 0 <= i < |qs| ensures PartOf(ps[i], qs[i], maxBytes) {
      if i < k {
        assert qs[i] == parts[i] && ps[i] == paragraphs[..k][i];
      }
    }
  }

  lemma PackWhole(title: string, budget: int, paragraphs: seq<Paragraph>, k: nat,
                  chunks: seq<seq<Paragraph>>, buffer: seq<Paragraph>, parts: seq<seq<Paragraph>>)
    requires k < |paragraphs| && Packing(title, budget, paragraphs[..k], chunks, buffer, parts)
    requires |BuildPostPayload(title, buffer + [paragraphs[k]])| <= budget
    ensures Packing(title, budget, paragraphs[..k + 1], chunks, buffer + [paragraphs[k]], parts + [[paragraphs[k]]])
  {
    PartitionStep(paragraphs, k, parts, [paragraphs[k]], budget / 2);
    ConcatSnoc(parts, [paragraphs[k]]);
  }

  lemma FlushStep(title: string, budget: int, done: seq<Paragraph>,
                  chunks: seq<seq<Paragraph>>, buffer: seq<Paragraph>, parts: seq<seq<Paragraph>>)
    requires Packing(title, budget, done, chunks, buffer, parts) && buffer != []
    ensures Packing(title, budget, done, chunks + [buffer], [], parts)
  {
    ConcatSnoc(chunks, buffer);
  }

  lemma PackRebuilt(title: string, budget: nat, paragraphs: seq<Paragraph>, k: nat,
                    chunks: seq<seq<Paragraph>>, parts: seq<seq<Paragraph>>,
                    sent: seq<seq<Paragraph>>, newPara: Paragraph)
    requires k < |paragraphs| && Packing(title, budget, paragraphs[..k], chunks, [], parts)
    requires Placed(title, budget, sent, newPara, Decompose(paragraphs[k], budget / 2))
    ensures Packing(title, budget, paragraphs[..k + 1], chunks + sent,
                    if newPara == [] then [] else [newPara], parts + [Rebuilt(sent, newPara)])
  {
    RebuiltGroups(chunks, parts, sent, newPara, Decompose(paragraphs[k], budget / 2));
    PartitionStep(paragraphs, k, parts, Rebuilt(sent, newPara), budget / 2);
    SentFit(title, budget, chunks, sent);
  }

  lemma RebuiltGroups(chunks: seq<seq<Paragraph>>, parts: seq<seq<Paragraph>>,
                      sent: seq<seq<Paragraph>>, newPara: Paragraph, nodes: Paragraph)
    requires Concat(chunks) == Concat(parts)
    requires Concat(Concat(sent)) + newPara == nodes
    ensures Concat(chunks + sent) + (if newPara == [] then [] else [newPara]) == Concat(parts + [Rebuilt(sent, newPara)])
    ensures Concat(Rebuilt(sent, newPara)) == nodes
  {
    var tail: seq<Paragraph> := if newPara == [] then [] else [newPara];
    var part := Rebuilt(sent, newPara);
    ConcatAppend(chunks, sent);
    ConcatSnoc(parts, part);
    ConcatAppend(Concat(sent), tail);
    if newPara != [] {
      assert tail[1..] == [];
    }
  }

  lemma SentFit(title: string, budget: int, chunks: seq<seq<Paragraph>>, sent: seq<seq<Paragraph>>)
    requires AllFit(title, chunks, budget)
    requires forall i :: 0 <= i < |sent| ==> |sent[i]| == 1 && GroupFits(title, sent[i][0], budget)
    ensures AllFit(title, chunks + sent, budget)
  {
    forall i | 0 <= i < |chunks + sent| ensures ChunkFits(title, (chunks + sent)[i], budget) {
      if i >= |chunks| {
        var c := sent[i - |chunks|];
        assert c == [c[0]];
      }
    }
  }

  lemma PartRender(para: Paragraph, part: seq<Paragraph>, maxBytes: int)
    requires PartOf(para, part, maxBytes)
    ensures Render(Concat(part)) == Render(para) && Links(Concat(part)) == Links(para)
  {
    if part == [para] {
      assert Concat(part) == para by {
        assert part[1..] == [];
      }
    } else {
      DecomposeRender(para, maxBytes);
    }
  }

  /** Nothing is lost, duplicated or reordered: the chunks, flattened, give
      back the markdown and the links of the paragraphs, in order. */
  lemma {:induction false} PartitionRender(paragraphs: seq<Paragraph>, parts: seq<seq<Paragraph>>, maxBytes: int)
    requires Partition(paragraphs, parts, maxBytes)
    ensures Render(Concat(Concat(parts))) == Render(Concat(paragraphs))
    ensures Links(Concat(Concat(parts))) == Links(Concat(paragraphs))
  {
    if paragraphs != [] {
      var p, part := paragraphs[0], parts[0];
      var rest, restParts := Concat(paragraphs[1..]), Concat(Concat(parts[1..]));
      PartitionRender(paragraphs[1..], parts[1..], maxBytes);
      ConcatAppend(part, Concat(parts[1..]));
      PartRender(p, part, maxBytes);
      RenderAppend(Concat(part), restParts);
      LinksAppend(Concat(part), restParts);
      RenderAppend(p, rest);
      LinksAppend(p, rest);
    }
  }

  // Two consequences of the packing as written.

  /** A paragraph of one node too large to send even alone is rebuilt from
      an empty group, so the empty group is sent first, as a chunk of its
      own, and the node follows in a chunk of its own. */
  lemma LoneOversizedNode(title: string, budget: nat, n: Node)
    requires Decompose([n], budget / 2) == [n]
    requires |BuildPostPayload(title, [[n]])| > budget
    ensures Chunks(title, [[n]], budget) == [[[]], [[n]]]
  {
    LoneRebuild(title, budget, n);
    assert PackStep(title, budget, PackState([], []), [n]) == PackState([[[]]], [[n]]) by {
      assert [] + [[n]] == [[n]];
    }
    PackOne(title, budget, [n]);
  }

  lemma PackOne(title: string, budget: nat, p: Paragraph)
    ensures PackAll(title, budget, [p]) == PackStep(title, budget, PackState([], []), p)
  {
    assert [p][..0] == [];
  }

  /** Rebuilding that node sends the empty open group and keeps the node open. */
  lemma LoneRebuild(title: string, budget: nat, n: Node)
    requires |BuildPostPayload(title, [[n]])| > budget
    ensures PlaceAll(title, budget, Rebuild([], []), [n]) == Rebuild([[[]]], [n])
  {
    assert [] + [n] == [n];
    PlaceAllSnoc(title, budget, Rebuild([], []), [], n);
  }

  /** So a link too large for the webhook goes out as two chunks: an empty
      group, then the link alone. */
  lemma OversizedLinkSendsEmptyGroup(title: string, budget: nat, caption: string, href: string)
    requires |BuildPostPayload(title, [[Link(caption, href)]])| > budget
    ensures Chunks(title, [[Link(caption, href)]], budget) == [[[]], [[Link(caption, href)]]]
  {
    var n := Link(caption, href);
    assert [n][1..] == [];
    LoneOversizedNode(title, budget, n);
  }

  function Quotes(n: nat): string {
    seq(n, _ => '"')
  }

  lemma {:induction false} QuotesSize(n: nat)
    ensures EscapedSize(Quotes(n)) == 2 * n
    ensures Length(Quotes(n)) == n
  {
    AsciiLength(Quotes(n));
    if n > 0 {
      assert Quotes(n)[1..] == Quotes(n - 1);
      QuotesSize(n - 1);
    }
  }

  /** Cutting text at half the limit does not make every piece fit: JSON
      writes each `"` as two bytes, so a piece of half the limit's worth of
      quotes is one piece, yet overflows the payload on its own. */
  lemma EscapedTextOverflows(title: string)
    ensures var t := Quotes(MaxBodySize / 2);
      && SplitText(t, MaxBodySize / 2) == [t]
      && |BuildPostPayload(title, [[Text(t)]])| > MaxBodySize
      && Chunks(title, [[Text(t)]], MaxBodySize) == [[[]], [[Text(t)]]]
  {
    var m := MaxBodySize / 2;
    var t := Quotes(m);
    QuotesSize(m);
    assert Concat([t]) == t by {
      assert [t][1..] == [];
    }
    assert IsGreedySplit(t, m, [t]);
    GreedySplitUnique(t, m, [t]);
    assert Decompose([Text(t)], m) == [Text(t)] by {
      assert [Text(t)][1..] == [];
      assert TextNodes([t]) == [Text(t)];
    }
    LoneOversizedNode(title, MaxBodySize, Text(t));
  }

  /** The paragraphs of the bodies render back to the bodies laid end to end. */
  lemma {:induction false} BodiesRender(paragraphs: seq<Paragraph>, bodies: seq<string>)
    requires |paragraphs| == |bodies|
    requires forall k :: 0 <= k < |paragraphs| ==> Render(paragraphs[k]) == bodies[k]
    ensures Render(Concat(paragraphs)) == Concat(bodies)
  {
    if paragraphs != [] {
      BodiesRender(paragraphs[1..], bodies[1..]);
      RenderAppend(paragraphs[0], Concat(paragraphs[1..]));
    }
  }

  /** Each paragraph's run of groups renders to the paragraph and holds its
      links, in order. */
  lemma PartsRender(paragraphs: seq<Paragraph>, parts: seq<seq<Paragraph>>, maxBytes: int)
    requires Partition(paragraphs, parts, maxBytes)
    ensures forall k :: 0 <= k < |parts| ==>
      Render(Concat(parts[k])) == Render(paragraphs[k]) && Links(Concat(parts[k])) == Links(paragraphs[k])
  {
    forall k | 0 <= k < |parts|
      ensures Render(Concat(parts[k])) == Render(paragraphs[k]) && Links(Concat(parts[k])) == Links(paragraphs[k])
    {
      PartRender(paragraphs[k], parts[k], maxBytes);
    }
  }

  /** `feishu_push_from_file` once the file is read: the title and the chunks
      it sends, in order. Every chunk fits the webhook's limit unless it is a
      lone group of at most one node. `parts` gives, for each content line of
      the digest, the run of groups its paragraph became: that run renders
      back to the line's body and holds the line's links, and the chunks,
      flattened, are these runs one after another. */
  method FeishuPushFromFile(md: string) returns (title: string, chunks: seq<seq<Paragraph>>, ghost parts: seq<seq<Paragraph>>)
    ensures var lines := SplitLines(md);
      title == (if LastHeading(lines) == [] then DefaultTitle else LastHeading(lines))
    ensures chunks == Chunks(title, ContentParagraphs(md), MaxBodySize)
    ensures forall i :: 0 <= i < |chunks| ==> ChunkFits(title, chunks[i], MaxBodySize)
    ensures Partition(ContentParagraphs(md), parts, MaxBodySize / 2)
    ensures Concat(chunks) == Concat(parts)
    ensures |parts| == |Bodies(SplitLines(md))|
    ensures forall k :: 0 <= k < |parts| ==>
      && Render(Concat(parts[k])) == Bodies(SplitLines(md))[k]
      && Links(Concat(parts[k])) == Links(ContentParagraphs(md)[k])
    ensures Render(Concat(Concat(chunks))) == Concat(Bodies(SplitLines(md)))
    ensures Links(Concat(Concat(chunks))) == Links(Concat(ContentParagraphs(md)))
  {
    var paragraphs;
    title, paragraphs := MdToPost(md);
    chunks, parts := Pack(title, paragraphs, MaxBodySize);
    PartsRender(paragraphs, parts, MaxBodySize / 2);
    PartitionRender(paragraphs, parts, MaxBodySize / 2);
    BodiesRender(paragraphs, Bodies(SplitLines(md)));
  }
}
