// `md_to_post` (yarb.py:173-201): reads the daily digest's markdown into a
// title and a list of paragraphs, finding inline links with
// `LINK_RE = \[([^\]]+)\]\(([^)]+)\)` (yarb.py:158).

module Markdown {
  import opened PyText
  import opened Post
  import opened Wrappers

  /** The title used when the digest has no `# ` heading (yarb.py:201). */
  const DefaultTitle: string := "每日安全资讯"

  /** A link found by `LINK_RE` and the number of characters it spans. */
  datatype Match = Match(link: Node, length: nat)

  /** Where the matcher stands inside `[label](href)`: in the label, or in
      the href that follows the `](` whose `]` is at index `close`. */
  datatype Phase = InLabel | InHref(close: nat)

  /** `LINK_RE` continued over `s` from index `k`. A greedy `[^\]]+` (or
      `[^)]+`) can only stop at the first `]` (or `)`), so the first one
      decides the match and backtracking never finds another. */
  function MatchFrom(s: string, k: nat, phase: Phase): (m: Option<Match>)
    requires 1 <= k
    requires phase.InHref? ==> 2 <= phase.close && phase.close + 2 <= k
    ensures m.Some? ==> m.value.link.Link? && 4 <= m.value.length <= |s|
    decreases |s| - k
  {
    if k >= |s| then None
    else match phase
      case InLabel =>
        if s[k] != ']' then MatchFrom(s, k + 1, InLabel)
        else if k == 1 || k + 1 >= |s| || s[k + 1] != '(' then None
        else MatchFrom(s, k + 2, InHref(k))
      case InHref(close) =>
        if s[k] != ')' then MatchFrom(s, k + 1, phase)
        else if k == close + 2 then None
        else Some(Match(Link(s[1..close], s[close + 2..k]), k + 1))
  }

  /** `LINK_RE.match(s)`: a link at the very start of `s`. A match opens
      with `[` and spans at least four characters, `[`, `]`, `(` and `)`. */
  function MatchLink(s: string): (m: Option<Match>)
    ensures m.Some? ==> m.value.link.Link? && 4 <= m.value.length <= |s| && s[0] == '['
  {
    if s == [] || s[0] != '[' then None else MatchFrom(s, 1, InLabel)
  }

  /** What the matcher has read so far is a well-formed prefix of a link. */
  ghost predicate ReadSoFar(s: string, k: nat, phase: Phase)
    requires k <= |s|
  {
    && |s| > 0 && s[0] == '['
    && match phase
       case InLabel => forall j :: 1 <= j < k ==> s[j] != ']'
       case InHref(close) =>
         && 2 <= close && close + 2 <= k
         && (forall j :: 1 <= j < close ==> s[j] != ']')
         && s[close] == ']' && s[close + 1] == '('
         && (forall j :: close + 2 <= j < k ==> s[j] != ')')
  }

  /** `s` starts with the link `m` spans: `[caption](href)`, with a
      non-empty caption free of `]` and a non-empty href free of `)`. */
  ghost predicate LinkAtStart(s: string, m: Match) {
    && m.link.Link? && m.length <= |s|
    && s[..m.length] == RenderNode(m.link)
    && m.link.text != [] && ']' !in m.link.text
    && m.link.href != [] && ')' !in m.link.href
  }

  lemma {:induction false} MatchFromSound(s: string, k: nat, phase: Phase)
    requires 1 <= k <= |s| && ReadSoFar(s, k, phase)
    requires MatchFrom(s, k, phase).Some?
    ensures LinkAtStart(s, MatchFrom(s, k, phase).value)
    decreases |s| - k
  {
    match phase
    case InLabel =>
      if s[k] != ']' {
        assert MatchFrom(s, k, phase) == MatchFrom(s, k + 1, InLabel);
        MatchFromSound(s, k + 1, InLabel);
      } else {
        assert MatchFrom(s, k, phase) == MatchFrom(s, k + 2, InHref(k));
        MatchFromSound(s, k + 2, InHref(k));
      }
    case InHref(close) =>
      if s[k] != ')' {
        assert MatchFrom(s, k, phase) == MatchFrom(s, k + 1, phase);
        MatchFromSound(s, k + 1, phase);
      } else {
        assert MatchFrom(s, k, phase) == Some(Match(Link(s[1..close], s[close + 2..k]), k + 1));
        ClosedLink(s, close, k);
      }
  }

  /** The text between `[` and the `]` at `close`, and between the `(` after
      it and the `)` at `k`, makes the link. */
  lemma ClosedLink(s: string, close: nat, k: nat)
    requires 2 <= close && close + 2 < k < |s| && s[0] == '['
    requires forall j :: 1 <= j < close ==> s[j] != ']'
    requires s[close] == ']' && s[close + 1] == '('
    requires forall j :: close + 2 <= j < k ==> s[j] != ')'
    requires s[k] == ')'
    ensures LinkAtStart(s, Match(Link(s[1..close], s[close + 2..k]), k + 1))
  {
    var caption, href := s[1..close], s[close + 2..k];
    assert s[..k + 1] == "[" + caption + "](" + href + ")";
    assert forall c :: c in caption ==> c != ']';
    assert forall c :: c in href ==> c != ')';
  }

  /** What `MatchLink` finds is `[caption](href)` with a non-empty caption free
      of `]` and a non-empty href free of `)`. */
  lemma MatchLinkSound(s: string)
    requires MatchLink(s).Some?
    ensures LinkAtStart(s, MatchLink(s).value)
  {
    MatchFromSound(s, 1, InLabel);
  }

  lemma {:induction false} MatchHrefComplete(s: string, close: nat, k: nat, href: string)
    requires 2 <= close && close + 2 <= k <= close + 2 + |href| < |s|
    requires href != [] && ')' !in href
    requires s[close + 2..close + 2 + |href|] == href && s[close + 2 + |href|] == ')'
    ensures MatchFrom(s, k, InHref(close))
      == Some(Match(Link(s[1..close], href), close + |href| + 3))
    decreases close + 2 + |href| - k
  {
    if k < close + 2 + |href| {
      assert s[k] == href[k - close - 2];
      MatchHrefComplete(s, close, k + 1, href);
    }
  }

  lemma {:induction false} MatchLabelComplete(s: string, k: nat, caption: string, href: string)
    requires 1 <= k <= |caption| + 1
    requires caption != [] && ']' !in caption && href != [] && ')' !in href
    requires |s| > |caption| + |href| + 3
    requires s[1..|caption| + 1] == caption && s[|caption| + 1] == ']' && s[|caption| + 2] == '('
    requires s[|caption| + 3..|caption| + 3 + |href|] == href && s[|caption| + 3 + |href|] == ')'
    ensures MatchFrom(s, k, InLabel) == Some(Match(Link(caption, href), |caption| + |href| + 4))
    decreases |caption| + 1 - k
  {
    var close := |caption| + 1;
    if k < close {
      assert s[k] == caption[k - 1];
      MatchLabelComplete(s, k + 1, caption, href);
    } else {
      MatchHrefComplete(s, close, close + 2, href);
    }
  }

  /** Conversely, `LINK_RE` matches every `[caption](href)` with a non-empty
      caption free of `]` and a non-empty href free of `)`, whatever follows. */
  lemma MatchLinkComplete(s: string, caption: string, href: string, rest: string)
    requires caption != [] && ']' !in caption && href != [] && ')' !in href
    requires s == "[" + caption + "](" + href + ")" + rest
    ensures MatchLink(s) == Some(Match(Link(caption, href), |caption| + |href| + 4))
  {
    assert s[1..|caption| + 1] == caption;
    assert s[|caption| + 3..|caption| + 3 + |href|] == href;
    MatchLabelComplete(s, 1, caption, href);
  }

  /** The text node for the pending text, or nothing when there is none. */
  function Flush(pending: string): Paragraph
  {
    if pending == [] then [] else [Text(pending)]
  }

  /** The nodes still to come when the text read since the last match is
      `pending` and `s` is unread: a link wherever `LINK_RE` matches, every
      other character added to the pending text, which becomes a text node
      before each link and at the end of the line. */
  function Scan(pending: string, s: string): Paragraph
    decreases |s|
  {
    if s == [] then Flush(pending)
    else match MatchLink(s)
      case Some(m) => Flush(pending) + [m.link] + Scan([], s[m.length..])
      case None => Scan(pending + [s[0]], s[1..])
  }

  /** The nodes of one line. They render back to the line, are well formed,
      and are not empty unless the line is. */
  function Tokens(line: string): (para: Paragraph)
    ensures Render(para) == line
    ensures WellFormed(para)
    ensures line != [] ==> para != []
  {
    ScanRender([], line);
    ScanWellFormed([], line);
    Scan([], line)
  }

  /** The loop over `LINK_RE.finditer(line)` that builds one paragraph
      (yarb.py:189-197): text between matches, each match as a link node,
      and the text after the last match. */
  method LineToParagraph(line: string) returns (para: Paragraph)
    ensures para == Tokens(line)
  {
    para := [];
    var pos: nat := 0;
    var i: nat := 0;
    while i < |line|
      invariant pos <= i <= |line|
      invariant Scanned(line, para, pos, i)
      decreases |line| - i
    {
      var found := MatchLink(line[i..]);
      if found.Some? {
        var m := found.value;
        ghost var before := para;
        if i > pos {
          para := para + [Text(line[pos..i])];
        }
        LinkStep(line, pos, i, m, before, para);
        para := para + [m.link];
        i := i + m.length;
        pos := i;
      } else {
        TextStep(line, pos, i, para);
        i := i + 1;
      }
    }
    ScanDone(line, pos, para);
    if pos < |line| {
      para := para + [Text(line[pos..])];
    }
  }

  /** The loop's state: the nodes so far, then the nodes the rest of the
      line yields with `line[pos..i]` pending, are the nodes of the line. */
  ghost predicate Scanned(line: string, para: Paragraph, pos: nat, i: nat)
    requires pos <= i <= |line|
  {
    para + Scan(line[pos..i], line[i..]) == Scan([], line)
  }

  /** At the end of the line, the pending text (if any) is the last node. */
  lemma ScanDone(line: string, pos: nat, para: Paragraph)
    requires pos <= |line| && Scanned(line, para, pos, |line|)
    ensures (if pos < |line| then para + [Text(line[pos..])] else para) == Scan([], line)
  {
    assert line[|line|..] == [] && line[pos..|line|] == line[pos..];
  }

  /** At a match, the pending text (if any) and the link are appended and
      the scan resumes after the match with nothing pending. */
  lemma LinkStep(line: string, pos: nat, i: nat, m: Match, para: Paragraph, flushed: Paragraph)
    requires pos <= i < |line| && MatchLink(line[i..]) == Some(m)
    requires Scanned(line, para, pos, i)
    requires flushed == if i > pos then para + [Text(line[pos..i])] else para
    ensures i < i + m.length <= |line|
    ensures Scanned(line, flushed + [m.link], i + m.length, i + m.length)
  {
    var next := i + m.length;
    ScanAtLink(line[pos..i], line, i, m);
    FlushLink(para, line[pos..i], m.link, Scan([], line[next..]), flushed);
    assert line[next..next] == [];
  }

  /** Flushing the pending text before a link, as sequence algebra. */
  lemma FlushLink(para: Paragraph, pending: string, link: Node, rest: Paragraph, flushed: Paragraph)
    requires flushed == if pending != [] then para + [Text(pending)] else para
    ensures para + (Flush(pending) + [link] + rest) == flushed + [link] + rest
  {
    if pending != [] {
      assert Flush(pending) == [Text(pending)];
    }
  }

  lemma ScanAtLink(pending: string, line: string, i: nat, m: Match)
    requires i < |line| && MatchLink(line[i..]) == Some(m)
    ensures i + m.length <= |line|
    ensures Scan(pending, line[i..]) == Flush(pending) + [m.link] + Scan([], line[i + m.length..])
  {
    assert line[i..][m.length..] == line[i + m.length..];
  }

  /** Elsewhere, the character joins the pending text. */
  lemma TextStep(line: string, pos: nat, i: nat, para: Paragraph)
    requires pos <= i < |line| && MatchLink(line[i..]).None?
    requires Scanned(line, para, pos, i)
    ensures Scanned(line, para, pos, i + 1)
  {
    ScanAtText(line[pos..i], line, i);
    assert line[pos..i + 1] == line[pos..i] + [line[i]];
  }

  lemma ScanAtText(pending: string, line: string, i: nat)
    requires i < |line| && MatchLink(line[i..]).None?
    ensures Scan(pending, line[i..]) == Scan(pending + [line[i]], line[i + 1..])
  {
    assert line[i..][0] == line[i] && line[i..][1..] == line[i + 1..];
  }

  /** What `md_to_post` guarantees of each paragraph's nodes: no empty text
      node, no two text nodes side by side, and every link as `LINK_RE`
      captures it. */
  predicate WellFormed(p: Paragraph) {
    && (forall k :: 0 <= k < |p| && p[k].Text? ==> p[k].text != [])
    && (forall k :: 0 < k < |p| && p[k].Text? ==> !p[k - 1].Text?)
    && (forall k :: 0 <= k < |p| && p[k].Link? ==>
          p[k].text != [] && ']' !in p[k].text && p[k].href != [] && ')' !in p[k].href)
  }

  lemma RenderFlushLink(pending: string, link: Node, rest: Paragraph)
    ensures Render(Flush(pending) + [link] + rest) == pending + RenderNode(link) + Render(rest)
  {
    RenderAppend(Flush(pending) + [link], rest);
    RenderAppend(Flush(pending), [link]);
    RenderSingle(link);
    if pending != [] {
      RenderSingle(Text(pending));
    }
  }

  lemma JoinAtMatch(s: string, n: nat, pending: string, head: string, tail: string)
    requires n <= |s| && s[..n] == head && s[n..] == tail
    ensures pending + head + tail == pending + s
  {
    assert s == s[..n] + s[n..];
  }

  lemma JoinAtText(s: string, pending: string)
    requires s != []
    ensures (pending + [s[0]]) + s[1..] == pending + s
  {
    assert s == [s[0]] + s[1..];
  }

  /** Rendering the nodes back to markdown gives the pending text followed
      by the unread text: the scan loses and invents nothing. */
  lemma {:induction false} ScanRender(pending: string, s: string)
    ensures Render(Scan(pending, s)) == pending + s
    decreases |s|
  {
    if s == [] {
      if pending != [] {
        RenderSingle(Text(pending));
      }
    } else {
      match MatchLink(s)
      case Some(m) =>
        MatchLinkSound(s);
        ScanRender([], s[m.length..]);
        RenderFlushLink(pending, m.link, Scan([], s[m.length..]));
        JoinAtMatch(s, m.length, pending, RenderNode(m.link), [] + s[m.length..]);
      case None =>
        ScanRender(pending + [s[0]], s[1..]);
        JoinAtText(s, pending);
    }
  }

  lemma WellFormedFlushLink(pending: string, link: Node, rest: Paragraph)
    requires link.Link? && link.text != [] && ']' !in link.text && link.href != [] && ')' !in link.href
    requires WellFormed(rest)
    ensures WellFormed(Flush(pending) + [link] + rest)
  {
    var r := Flush(pending) + [link] + rest;
    var f := |Flush(pending)|;
    forall k | f < k <= f + |rest| ensures r[k] == rest[k - f - 1] {}
  }

  /** Every scan yields well-formed nodes, and at least one when there is
      anything pending or unread. */
  lemma {:induction false} ScanWellFormed(pending: string, s: string)
    ensures WellFormed(Scan(pending, s))
    ensures pending != [] || s != [] ==> Scan(pending, s) != []
    decreases |s|
  {
    if s != [] {
      match MatchLink(s)
      case Some(m) =>
        MatchLinkSound(s);
        ScanWellFormed([], s[m.length..]);
        WellFormedFlushLink(pending, m.link, Scan([], s[m.length..]));
      case None =>
        ScanWellFormed(pending + [s[0]], s[1..]);
    }
  }

  /** What one line of the digest is, once stripped (yarb.py:178-187). */
  datatype LineKind = Blank | Heading(title: string) | Content(body: string)

  /** A blank line is one of whitespace only; a heading line carries a
      non-empty title and a content line a non-empty body, because the line
      was stripped and so ends in a non-space. */
  function Classify(raw: string): (kind: LineKind)
    ensures kind.Blank? <==> forall k :: 0 <= k < |raw| ==> IsSpace(raw[k])
    ensures kind.Heading? ==> kind.title != []
    ensures kind.Content? ==> kind.body != []
  {
    var line := Strip(raw);
    if line == [] then Blank
    else if StartsWith(line, "# ") then MarkedText(line); Heading(Strip(line[2..]))
    else if StartsWith(line, "- ") then MarkedText(line); Content(Strip(line[2..]))
    else Content(line)
  }

  /** After a two-character marker ending in a space, a line that ends in a
      non-space still has text. */
  lemma MarkedText(line: string)
    requires |line| >= 2 && line[1] == ' ' && !IsSpace(line[|line| - 1])
    ensures Strip(line[2..]) != []
  {
    var tail := line[2..];
    assert tail[|tail| - 1] == line[|line| - 1];
  }

  /** The bodies of the content lines, in order. */
  function Bodies(lines: seq<string>): seq<string>
  {
    if lines == [] then []
    else
      var last := Classify(lines[|lines| - 1]);
      Bodies(lines[..|lines| - 1]) + (if last.Content? then [last.body] else [])
  }

  /** The title of the last heading line, or "" when there is none. */
  function LastHeading(lines: seq<string>): string
  {
    if lines == [] then []
    else
      var last := Classify(lines[|lines| - 1]);
      if last.Heading? then last.title else LastHeading(lines[..|lines| - 1])
  }

  /** The paragraphs of the digest: one per content line, in order, each
      rendering back to that line's body. */
  function ContentParagraphs(md: string): (paras: seq<Paragraph>)
    ensures |paras| == |Bodies(SplitLines(md))|
    ensures forall k :: 0 <= k < |paras| ==> Render(paras[k]) == Bodies(SplitLines(md))[k]
  {
    var bodies := Bodies(SplitLines(md));
    seq(|bodies|, k requires 0 <= k < |bodies| => Tokens(bodies[k]))
  }

  /** `md_to_post(md_text)` (yarb.py:173-201). */
  method MdToPost(md: string) returns (title: string, paragraphs: seq<Paragraph>)
    ensures var lines := SplitLines(md);
      title == (if LastHeading(lines) == [] then DefaultTitle else LastHeading(lines))
    ensures paragraphs == ContentParagraphs(md)
  {
    var lines := SplitLines(md);
    title := [];
    paragraphs := [];
    for i := 0 to |lines|
      invariant Collected(lines[..i], title, paragraphs)
    {
      LineStep(lines, i);
      var line := Strip(lines[i]);
      if line == [] {
        continue;
      }
      if StartsWith(line, "# ") {
        title := Strip(line[2..]);
        continue;
      }
      if StartsWith(line, "- ") {
        line := Strip(line[2..]);
      }
      var para := LineToParagraph(line);
      AppendParagraph(Bodies(lines[..i]), paragraphs, line);
      paragraphs := paragraphs + [para];
    }
    assert lines[..|lines|] == lines;
    if title == [] {
      title := DefaultTitle;
    }
  }

  /** The loop's state after reading `lines`: the last heading so far, and
      one paragraph per body so far. */
  ghost predicate Collected(lines: seq<string>, title: string, paragraphs: seq<Paragraph>) {
    && title == LastHeading(lines)
    && |paragraphs| == |Bodies(lines)|
    && forall k :: 0 <= k < |paragraphs| ==> paragraphs[k] == Tokens(Bodies(lines)[k])
  }

  /** Reading one more line: a heading replaces the title, a content line
      adds its body, a blank line changes nothing. */
  lemma LineStep(lines: seq<string>, i: nat)
    requires i < |lines|
    ensures var kind := Classify(lines[i]);
      && LastHeading(lines[..i + 1]) == (if kind.Heading? then kind.title else LastHeading(lines[..i]))
      && Bodies(lines[..i + 1]) == Bodies(lines[..i]) + (if kind.Content? then [kind.body] else [])
  {
    assert lines[..i + 1][..i] == lines[..i];
  }

  lemma AppendParagraph(bodies: seq<string>, paragraphs: seq<Paragraph>, body: string)
    requires |paragraphs| == |bodies|
    requires forall k :: 0 <= k < |paragraphs| ==> paragraphs[k] == Tokens(bodies[k])
    ensures forall k :: 0 <= k <= |paragraphs| ==>
      (paragraphs + [Tokens(body)])[k] == Tokens((bodies + [body])[k])
  {
  }

  /** Without a heading line the digest gets the default title. */
  lemma {:induction false} NoHeadingDefault(lines: seq<string>)
    requires forall i :: 0 <= i < |lines| ==> !Classify(lines[i]).Heading?
    ensures LastHeading(lines) == []
  {
    if lines != [] {
      NoHeadingDefault(lines[..|lines| - 1]);
    }
  }

  /** With heading lines, the last one decides the title, which is never
      empty, so the default is not used. */
  lemma {:induction false} LastHeadingWins(lines: seq<string>, i: nat)
    requires i < |lines| && Classify(lines[i]).Heading?
    requires forall j :: i < j < |lines| ==> !Classify(lines[j]).Heading?
    ensures LastHeading(lines) == Classify(lines[i]).title != []
  {
    if i < |lines| - 1 {
      LastHeadingWins(lines[..|lines| - 1], i);
    }
  }

  /** Every body is the non-empty text of one content line. */
  lemma {:induction false} BodiesNonEmpty(lines: seq<string>)
    ensures forall k :: 0 <= k < |Bodies(lines)| ==> Bodies(lines)[k] != []
  {
    if lines != [] {
      BodiesNonEmpty(lines[..|lines| - 1]);
    }
  }
}
