# yarb: the Feishu "post" chunker

yarb collects security RSS feeds into a daily markdown digest and pushes
the digest to chat bots. This project models the part of `yarb.py` that
pushes the digest to a Feishu webhook as rich-text "post" messages, and
proves what it guarantees. That part has four pieces:

- `split_text_by_bytes` cuts a string into runs of whole characters of
  bounded UTF-8 size.
- `md_to_post` reads the digest's markdown into a title and paragraphs of
  text and link nodes. Links are found with `LINK_RE`.
- `build_post_payload` serialises a title and groups of nodes with
  `json.dumps(..., ensure_ascii=False)` and encodes the result in UTF-8.
- The packing loop of `feishu_push_from_file` packs paragraphs into chunks
  whose payloads fit `MAX_BODY_SIZE`, and sends each chunk.

Modules:

| module | models |
|---|---|
| `Utf8` | `str.encode("utf-8")` (section 3 of RFC 3629) |
| `PyText` | `str.splitlines`, `str.strip`, `str.startswith` over Python 3's line-boundary and whitespace sets |
| `Post` | nodes and paragraphs, and the markdown a node is read from |
| `Sequences` | flattening of nested sequences |
| `ByteSplit` | `split_text_by_bytes` |
| `Markdown` | `LINK_RE` as an explicit matcher, the `finditer` scan, `md_to_post` |
| `Payload` | the exact JSON text and byte size of `build_post_payload` |
| `Chunker` | the packing loop and `feishu_push_from_file` without its I/O |

The loops of the source are methods with loop invariants. Each method is
tied to a function that states its result: `SplitText`, `Tokens`,
`PlaceAll`, `Chunks`. The properties are proved about those functions and
in the methods' contracts.

Three behaviours of the code are worth knowing:

- The title comes from the last `# ` heading: `md_to_post` overwrites the
  title at every heading (yarb.py:183) (`Markdown.LastHeadingWins`).
- A link too large to send, alone in a paragraph, goes out as two chunks.
  The empty group being built is sent first, as `[[]]`, then the link alone
  (yarb.py:245-248) (`Chunker.OversizedLinkSendsEmptyGroup`).
- A text piece of half the limit can be over the limit on its own
  (yarb.py:252-256), because JSON escaping writes each `"` as two bytes
  (`Chunker.EscapedTextOverflows`). Every chunk fits unless it is one group
  of at most one node (`Chunker.Pack`).

## Model

| member | source | states |
|---|---|---|
| Utf8.EncodeCharDecodes | yarb.py:164 | The bytes written for a character decode back to its code point, as section 3 of RFC 3629 defines. |
| Utf8.EncodeLength | yarb.py:164 | The encoded length of a string is the sum of its characters' byte counts (1 to 4 each). |
| PyText.SplitLines | yarb.py:177 | No line holds a line boundary, and the text is empty exactly when there are no lines. |
| PyText.SplitLinesSpec | yarb.py:177 | The lines, laid end to end, are the text without its boundary characters. There is one line per boundary (`\r\n` counting as one), plus one when the text does not end in a boundary. |
| PyText.Strip | yarb.py:178 | `strip` removes exactly the leading and trailing whitespace, keeps a non-space at each end, and gives "" exactly for all-whitespace input. |
| ByteSplit.SplitTextByBytes | yarb.py:161-170 | The generator loop yields exactly `SplitText(text, max_bytes)`. |
| ByteSplit.SplitText | yarb.py:161-170 | The pieces concatenate to the input, and each is within the limit or a single character. Every piece after the first is non-empty and could not take the next piece's first character. The first piece is empty exactly when the first character alone exceeds the limit. |
| ByteSplit.GreedySplitUnique | yarb.py:161-170 | Any split with those properties is the one `split_text_by_bytes` yields. |
| ByteSplit.SplitPreservesBytes | yarb.py:163-168 | Cuts fall between characters: the pieces' bytes, laid end to end, are the input's bytes. |
| Markdown.MatchLink | yarb.py:158 | A match starts with `[` and spans at least four characters of the string. Exactly which strings match is stated by the next two rows. |
| Markdown.MatchLinkSound | yarb.py:158 | A `LINK_RE` match at the start of a string spans `[caption](href)`, with a non-empty caption free of `]` and a non-empty href free of `)`. |
| Markdown.MatchLinkComplete | yarb.py:158 | Every such `[caption](href)` at the start of a string is matched, whatever follows, with that caption, href and length. |
| Markdown.LineToParagraph | yarb.py:189-197 | The `finditer` loop over a line returns exactly `Tokens(line)`. |
| Markdown.Tokens | yarb.py:189-197 | The nodes of a line render back to the line (text as is, links as `[text](href)`). No text node is empty, no two text nodes are adjacent, and every link is as `LINK_RE` captures it. A non-empty line gives a non-empty paragraph. |
| Markdown.Classify | yarb.py:178-187 | A line is blank exactly when it is all whitespace. A heading line carries a non-empty title, and a content line a non-empty body. |
| Markdown.ContentParagraphs | yarb.py:177-199 | There is one paragraph per content line, in order, and each renders back to that line's body. |
| Markdown.MdToPost | yarb.py:173-201 | The title is the last heading's text, or "每日安全资讯" without one. The paragraphs are `ContentParagraphs(md)`. |
| Markdown.NoHeadingDefault | yarb.py:201 | Without a heading line, the last-heading text is empty, so the default title is used. |
| Markdown.LastHeadingWins | yarb.py:182-184 | The last heading line decides the title, and that title is never empty. |
| Markdown.BodiesNonEmpty | yarb.py:178-187 | Every content body is non-empty. |
| Payload.EscapeRoundTrip | yarb.py:205-215 | Reading an escaped string back gives the original, so the escaping loses nothing. |
| Payload.EscapeIsClean | yarb.py:205-215 | An escaped string is a well-formed JSON string body, as section 7 of RFC 8259 defines it. It holds no control character, no quote or backslash outside an escape, and only escapes `\x` and `\uXXXX`. |
| Payload.QuoteCloses | yarb.py:205-215 | A reader of a string literal that `json.dumps` wrote stops exactly at its closing quote, whatever follows. |
| Payload.BuildPostPayload | yarb.py:204-215 | The payload's byte length is 82 plus the escaped title's size plus the size of the groups. |
| Payload.AppendGroupGrows | yarb.py:204-215 | Appending a group adds exactly its size, plus 2 bytes of separator unless it is the first, so the payload strictly grows. |
| Payload.AppendNodeGrows | yarb.py:204-215 | Appending a node to the last group of any content adds exactly its size, plus 2 bytes unless the group was empty, so the payload strictly grows. |
| Chunker.DecomposeRender | yarb.py:244-258 | Rebuilding a paragraph into links and text pieces keeps its markdown and its links, in order. |
| Chunker.DecomposePiecesFit | yarb.py:252 | With a limit of at least 4 bytes, every text piece of a rebuild is non-empty and within the limit. |
| Chunker.RebuildParagraph | yarb.py:243-258 | The node loop leaves the sent chunks and `new_para` that `PlaceAll` gives for the paragraph's nodes, text cut by `split_text_by_bytes(…, budget // 2)`. |
| Chunker.PlacePieces | yarb.py:252-258 | The loop over one text node's pieces places them in order as text nodes. |
| Chunker.RebuildPlaced | yarb.py:243-258 | Every chunk a rebuild sends is one group that fits or holds at most one node, and so is the group it leaves open. Together they hold the rebuilt nodes in order. |
| Chunker.PackStep | yarb.py:234-262 | One paragraph of the loop. Chunks once sent stay sent, in order. If every chunk sent and the buffer fitted before, they still do. |
| Chunker.Chunks | yarb.py:232-264 | Every chunk the loop sends, the last buffer included, is non-empty and fits the budget unless it is one group of at most one node. |
| Chunker.Pack | yarb.py:232-264 | The chunks are `Chunks(title, paragraphs, budget)`. Each paragraph becomes, in order, either one whole group or a run of groups holding its rebuilt nodes. Each chunk is non-empty and fits the budget unless it is one group of at most one node. |
| Chunker.PartsRender | yarb.py:232-264 | The run of groups each paragraph became renders back to that paragraph and holds its links, in order. |
| Chunker.PartitionRender | yarb.py:232-264 | Flattening the chunks gives back the paragraphs' markdown and links, in order: nothing is dropped, duplicated or reordered. |
| Chunker.LoneOversizedNode | yarb.py:243-264 | A lone node too large even by itself is sent as two chunks: the empty group first, then the node alone. |
| Chunker.OversizedLinkSendsEmptyGroup | yarb.py:245-248 | The same holds for every link too large to send. |
| Chunker.EscapedTextOverflows | yarb.py:252-256 | A text of 10240 quotes is one piece at half the limit, yet its payload exceeds `MAX_BODY_SIZE` and it is sent alone after an empty group. |
| Chunker.FeishuPushFromFile | yarb.py:223-264 | The title is the digest's last heading or the default. The chunks are `Chunks` of the digest's paragraphs with `MAX_BODY_SIZE`, and each fits unless it is one group of at most one node. Flattened, the chunks are one run of groups per content line, in order. Each run renders back to that line's body and holds that line's links. |

## Left out

- The I/O shell of `feishu_push_from_file` (yarb.py:219-230) is not modelled: the `FEISHU_HOOK` lookup, the file check and read, `requests.post`, the prints and the `True`/`False` result. The method takes the file's text, and sending a chunk is appending it to the returned sequence.
- The rest of `yarb.py` (`update_today`, `update_rss`, `parseThread`, `init_bot`, `job`, `cleanup`, `argument`, `main`) and `feishu_test.py`: feed fetching, file writing, bots, threads and scheduling, with no logic the chunker depends on.
- Strings holding lone surrogates are not modelled. Python would raise on encoding them, and a Dafny `char` is a Unicode scalar value.
- `LINK_RE` is modelled by a matcher for this one pattern (`Markdown.MatchLink`), not by a general regular-expression engine.
- Payload.EscapeRoundTrip: the decoder it is proved against reads only what `json.dumps` writes: short escapes, and `\uXXXX` below the surrogate range. It is not a full RFC 8259 string parser.
- Pack: the budget is a parameter, and `FeishuPushFromFile` fixes it to `MAX_BODY_SIZE` (20480).
- Nodes are the `Node` datatype rather than dictionaries. `json.dumps` is modelled only for the shape `build_post_payload` produces, with keys in insertion order.
