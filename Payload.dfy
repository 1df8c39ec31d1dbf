// `build_post_payload(title, content)` (yarb.py:204-215): the Feishu "post"
// envelope serialised by `json.dumps(..., ensure_ascii=False)` and encoded
// in UTF-8. Keys keep their insertion order, items are separated by ", ",
// keys from values by ": ", and strings are escaped as section 7 of RFC 8259
// allows, with non-ASCII characters left as they are.

module Payload {
  import opened Utf8
  import opened Post
  import opened Wrappers

  /** Lower-case hexadecimal digit, as `json.dumps` writes `\u00XX`. */
  function HexDigit(d: nat): char
    requires d < 16
  {
    "0123456789abcdef"[d]
  }

  /** The value of a hexadecimal digit of either case, or -1. */
  function HexValue(c: char): int {
    if '0' <= c <= '9' then c as int - '0' as int
    else if 'a' <= c <= 'f' then c as int - 'a' as int + 10
    else if 'A' <= c <= 'F' then c as int - 'A' as int + 10
    else -1
  }

  /** Characters `json.dumps` writes as a backslash and one letter. */
  predicate HasShortEscape(c: char) {
    c == '"' || c == '\\' || c == '\n' || c == '\r' || c == '\t' || c == '\U{08}' || c == '\U{0C}'
  }

  /** How `json.dumps` writes one character inside a string. */
  function EscapeChar(c: char): string {
    if c == '"' then "\\\""
    else if c == '\\' then "\\\\"
    else if c == '\n' then "\\n"
    else if c == '\r' then "\\r"
    else if c == '\t' then "\\t"
    else if c == '\U{08}' then "\\b"
    else if c == '\U{0C}' then "\\f"
    else if c < ' ' then "\\u00" + [HexDigit(c as int / 16), HexDigit(c as int % 16)]
    else [c]
  }

  function Escape(s: string): string {
    if s == [] then [] else EscapeChar(s[0]) + Escape(s[1..])
  }

  /** A JSON string literal. */
  function Quote(s: string): string {
    "\"" + Escape(s) + "\""
  }

  /** The character a two-character escape `\x` stands for. */
  function ShortEscape(x: char): Option<char> {
    if x == '"' then Some('"')
    else if x == '\\' then Some('\\')
    else if x == '/' then Some('/')
    else if x == 'n' then Some('\n')
    else if x == 'r' then Some('\r')
    else if x == 't' then Some('\t')
    else if x == 'b' then Some('\U{08}')
    else if x == 'f' then Some('\U{0C}')
    else None
  }

  /** The value of four hexadecimal digits, or -1. */
  function Hex4(d: string): int
    requires |d| == 4
  {
    if HexValue(d[0]) < 0 || HexValue(d[1]) < 0 || HexValue(d[2]) < 0 || HexValue(d[3]) < 0 then -1
    else ((HexValue(d[0]) * 16 + HexValue(d[1])) * 16 + HexValue(d[2])) * 16 + HexValue(d[3])
  }

  /** Reads the body of a JSON string literal back (section 7 of RFC 8259),
      for the escapes below the surrogate range; anything it does not
      recognise is kept as it stands. */
  function Unescape(e: string): string
    decreases |e|
  {
    if e == [] then []
    else if |e| >= 6 && e[0] == '\\' && e[1] == 'u' && 0 <= Hex4(e[2..6]) < 0xD800 then
      [Hex4(e[2..6]) as char] + Unescape(e[6..])
    else if |e| >= 2 && e[0] == '\\' && ShortEscape(e[1]).Some? then
      [ShortEscape(e[1]).value] + Unescape(e[2..])
    else [e[0]] + Unescape(e[1..])
  }

  lemma UnescapeShort(c: char, rest: string)
    requires HasShortEscape(c)
    ensures Unescape(EscapeChar(c) + rest) == [c] + Unescape(rest)
  {
    var e := EscapeChar(c) + rest;
    assert |EscapeChar(c)| == 2 && EscapeChar(c)[0] == '\\';
    assert e[0] == '\\' && e[1] == EscapeChar(c)[1];
    assert ShortEscape(e[1]) == Some(c);
    assert e[2..] == rest;
  }

  lemma UnescapeControl(c: char, rest: string)
    requires c < ' ' && !HasShortEscape(c)
    ensures Unescape(EscapeChar(c) + rest) == [c] + Unescape(rest)
  {
    var hi, lo := c as int / 16, c as int % 16;
    var e := EscapeChar(c) + rest;
    assert EscapeChar(c) == "\\u00" + [HexDigit(hi), HexDigit(lo)];
    assert e[2..6] == "00" + [HexDigit(hi), HexDigit(lo)];
    assert HexValue(HexDigit(hi)) == hi && HexValue(HexDigit(lo)) == lo;
    assert Hex4(e[2..6]) == c as int;
    assert e[6..] == rest;
  }

  lemma UnescapeChar(c: char, rest: string)
    ensures Unescape(EscapeChar(c) + rest) == [c] + Unescape(rest)
  {
    if HasShortEscape(c) {
      UnescapeShort(c, rest);
    } else if c < ' ' {
      UnescapeControl(c, rest);
    } else {
      var e := EscapeChar(c) + rest;
      assert e[0] == c && e[1..] == rest;
    }
  }

  /** Escaping loses nothing: reading the escaped text back gives the
      original string, so distinct strings give distinct literals. */
  lemma {:induction false} EscapeRoundTrip(s: string)
    ensures Unescape(Escape(s)) == s
  {
    if s != [] {
      UnescapeChar(s[0], Escape(s[1..]));
      EscapeRoundTrip(s[1..]);
      assert s == [s[0]] + s[1..];
    }
  }

  /** A JSON string body, as section 7 of RFC 8259 defines it: characters
      other than `"`, `\` and the controls, and the escapes `\x` and `\uXXXX`. */
  predicate Clean(e: string)
    decreases |e|
  {
    if e == [] then true
    else if e[0] == '\\' then
      if |e| >= 6 && e[1] == 'u' then Hex4(e[2..6]) >= 0 && Clean(e[6..])
      else |e| >= 2 && ShortEscape(e[1]).Some? && Clean(e[2..])
    else e[0] >= ' ' && e[0] != '"' && Clean(e[1..])
  }

  lemma EscapeCharClean(c: char, rest: string)
    requires Clean(rest)
    ensures Clean(EscapeChar(c) + rest)
  {
    var e := EscapeChar(c) + rest;
    if HasShortEscape(c) {
      assert e[2..] == rest;
    } else if c < ' ' {
      ControlClean(c, rest);
    } else {
      assert e[0] == c && e[1..] == rest;
    }
  }

  lemma ControlClean(c: char, rest: string)
    requires c < ' ' && !HasShortEscape(c) && Clean(rest)
    ensures Clean(EscapeChar(c) + rest)
  {
    var hi, lo := c as int / 16, c as int % 16;
    var e := EscapeChar(c) + rest;
    assert EscapeChar(c) == "\\u00" + [HexDigit(hi), HexDigit(lo)];
    assert e[2..6] == "00" + [HexDigit(hi), HexDigit(lo)];
    assert HexValue(HexDigit(hi)) == hi && HexValue(HexDigit(lo)) == lo;
    assert e[6..] == rest;
  }

  /** An escaped string is a well-formed JSON string body. */
  lemma {:induction false} EscapeIsClean(s: string)
    ensures Clean(Escape(s))
  {
    if s != [] {
      EscapeIsClean(s[1..]);
      EscapeCharClean(s[0], Escape(s[1..]));
    }
  }

  /** Where a JSON reader ends the string literal whose body starts at the
      beginning of `e`: at the first quote no backslash escapes. */
  function LiteralEnd(e: string): Option<nat>
    decreases |e|
  {
    if e == [] then None
    else if e[0] == '"' then Some(0)
    else if e[0] == '\\' && |e| < 2 then None
    else
      var skip := if e[0] == '\\' then 2 else 1;
      match LiteralEnd(e[skip..])
      case Some(k) => Some(k + skip)
      case None => None
  }

  /** Hexadecimal digits neither close nor escape anything. */
  lemma {:induction false} HexRun(y: string, n: nat, k: nat)
    requires n <= |y| && forall i :: 0 <= i < n ==> HexValue(y[i]) >= 0
    requires LiteralEnd(y[n..]) == Some(k)
    ensures LiteralEnd(y) == Some(k + n)
    decreases n
  {
    if n > 0 {
      assert y[1..][n - 1..] == y[n..];
      HexRun(y[1..], n - 1, k);
    }
  }

  /** A reader of a clean body followed by a quote stops at that quote. */
  lemma {:induction false} CleanCloses(e: string, rest: string)
    requires Clean(e)
    ensures LiteralEnd(e + "\"" + rest) == Some(|e|)
    decreases |e|
  {
    var x := e + "\"" + rest;
    if e != [] {
      if e[0] == '\\' && |e| >= 6 && e[1] == 'u' {
        CleanCloses(e[6..], rest);
        var y := x[2..];
        assert y[4..] == e[6..] + "\"" + rest;
        forall i | 0 <= i < 4 ensures HexValue(y[i]) >= 0 {
          assert y[i] == e[2..6][i];
        }
        HexRun(y, 4, |e| - 6);
      } else if e[0] == '\\' {
        CleanCloses(e[2..], rest);
        assert x[2..] == e[2..] + "\"" + rest;
      } else {
        CleanCloses(e[1..], rest);
        assert x[1..] == e[1..] + "\"" + rest;
      }
    }
  }

  /** So the literal `json.dumps` writes for a string ends exactly at its
      closing quote, whatever follows it. */
  lemma QuoteCloses(s: string, rest: string)
    ensures LiteralEnd(Quote(s)[1..] + rest) == Some(|Escape(s)|)
  {
    EscapeIsClean(s);
    CleanCloses(Escape(s), rest);
    assert Quote(s)[1..] == Escape(s) + "\"";
  }

  // The fixed parts of the JSON text, built from short ASCII pieces.
  const TagKey := "{\"tag\": "
  const TextKey := "\"text\": "
  const TextHead := TagKey + "\"text\", " + TextKey
  const LinkHead := TagKey + "\"a\", " + TextKey
  const HrefKey := ", \"href\": "

  function NodeJson(n: Node): string {
    match n
    case Text(t) => TextHead + Quote(t) + "}"
    case Link(l, h) => LinkHead + Quote(l) + HrefKey + Quote(h) + "}"
  }

  /** The nodes of a group, separated by ", ". */
  function JoinNodes(g: Paragraph): string {
    if g == [] then []
    else if |g| == 1 then NodeJson(g[0])
    else JoinNodes(g[..|g| - 1]) + ", " + NodeJson(g[|g| - 1])
  }

  function GroupJson(g: Paragraph): string {
    "[" + JoinNodes(g) + "]"
  }

  /** The groups of the content, separated by ", ". */
  function JoinGroups(c: seq<Paragraph>): string {
    if c == [] then []
    else if |c| == 1 then GroupJson(c[0])
    else JoinGroups(c[..|c| - 1]) + ", " + GroupJson(c[|c| - 1])
  }

  const ContentName := "\"content\": "
  const EnvelopeHead := "{\"msg_type\": " + "\"post\", " + ContentName + "{\"post\": " + "{\"zh_cn\": " + "{\"title\": "
  const ContentKey := ", " + ContentName + "["
  const EnvelopeTail := "]}}}}"

  /** The text `json.dumps` produces for the message. */
  function Envelope(title: string, content: seq<Paragraph>): string {
    EnvelopeHead + Quote(title) + ContentKey + JoinGroups(content) + EnvelopeTail
  }

  /** `build_post_payload(title, content)`: the bytes posted to the webhook.
      Their number is the sum of what each field costs. */
  function BuildPostPayload(title: string, content: seq<Paragraph>): (payload: seq<byte>)
    ensures |payload| == PayloadSize(title, content)
  {
    EnvelopeLength(title, content);
    EncodeLength(Envelope(title, content));
    Encode(Envelope(title, content))
  }

  // The size of the payload, counted field by field.

  /** Bytes `json.dumps` spends on one character of a string. */
  function EscapedCharSize(c: char): nat {
    if HasShortEscape(c) then 2
    else if c < ' ' then 6
    else CharLength(c)
  }

  function EscapedSize(s: string): nat {
    if s == [] then 0 else EscapedCharSize(s[0]) + EscapedSize(s[1..])
  }

  /** A text node costs 27 bytes besides its text, a link 36 besides its
      text and target. */
  function NodeSize(n: Node): nat {
    match n
    case Text(t) => 27 + EscapedSize(t)
    case Link(l, h) => 36 + EscapedSize(l) + EscapedSize(h)
  }

  /** Two brackets, the nodes, and two bytes between neighbours. */
  function GroupSize(g: Paragraph): nat {
    if g == [] then 2
    else if |g| == 1 then 2 + NodeSize(g[0])
    else GroupSize(g[..|g| - 1]) + 2 + NodeSize(g[|g| - 1])
  }

  function GroupsSize(c: seq<Paragraph>): nat {
    if c == [] then 0
    else if |c| == 1 then GroupSize(c[0])
    else GroupsSize(c[..|c| - 1]) + 2 + GroupSize(c[|c| - 1])
  }

  /** The envelope costs 82 bytes around an empty title and an empty
      content list. */
  function PayloadSize(title: string, content: seq<Paragraph>): nat {
    82 + EscapedSize(title) + GroupsSize(content)
  }

  lemma AsciiLength(s: string)
    requires forall c :: c in s ==> c < '\U{80}'
    ensures Length(s) == |s|
  {
    assert forall k :: 0 <= k < |s| ==> s[k] in s;
    LengthAtLeastSize(s);
  }

  lemma EscapeCharLength(c: char)
    ensures Length(EscapeChar(c)) == EscapedCharSize(c)
  {
    if c >= ' ' && c != '"' && c != '\\' {
      SingleLength(c);
    } else {
      AsciiLength(EscapeChar(c));
    }
  }

  lemma {:induction false} EscapeLength(s: string)
    ensures Length(Escape(s)) == EscapedSize(s)
  {
    if s != [] {
      EscapeCharLength(s[0]);
      EscapeLength(s[1..]);
      LengthAppend(EscapeChar(s[0]), Escape(s[1..]));
    }
  }

  lemma Length3(a: string, b: string, c: string)
    ensures Length(a + b + c) == Length(a) + Length(b) + Length(c)
  {
    LengthAppend(a + b, c);
    LengthAppend(a, b);
  }

  lemma QuoteLength(s: string)
    ensures Length(Quote(s)) == EscapedSize(s) + 2
  {
    Length3("\"", Escape(s), "\"");
    EscapeLength(s);
    AsciiLength("\"");
  }

  /** The fixed parts of the JSON text are ASCII, one byte per character. */
  lemma NodeKeyLengths()
    ensures Length(TextHead) == 24 && Length(LinkHead) == 21 && Length(HrefKey) == 10 && Length("}") == 1
  {
    AsciiLength(TextHead);
    AsciiLength(LinkHead);
    AsciiLength(HrefKey);
    AsciiLength("}");
  }

  lemma SeparatorLengths()
    ensures Length(", ") == 2 && Length("[") == 1 && Length("]") == 1
  {
    AsciiLength(", ");
    AsciiLength("[");
    AsciiLength("]");
  }

  lemma EnvelopeKeyLengths()
    ensures Length(EnvelopeHead) == 61 && Length(ContentKey) == 14 && Length(EnvelopeTail) == 5
  {
    AsciiLength(EnvelopeHead);
    AsciiLength(ContentKey);
    AsciiLength(EnvelopeTail);
  }

  lemma NodeJsonLength(n: Node)
    ensures Length(NodeJson(n)) == NodeSize(n)
  {
    NodeKeyLengths();
    match n
    case Text(t) =>
      Length3(TextHead, Quote(t), "}");
      QuoteLength(t);
    case Link(l, h) =>
      Length3(LinkHead, Quote(l), HrefKey);
      Length3(LinkHead + Quote(l) + HrefKey, Quote(h), "}");
      QuoteLength(l);
      QuoteLength(h);
  }

  lemma {:induction false} JoinNodesLength(g: Paragraph)
    ensures Length(JoinNodes(g)) + 2 == GroupSize(g)
  {
    if |g| == 1 {
      NodeJsonLength(g[0]);
    } else if |g| > 1 {
      JoinNodesLength(g[..|g| - 1]);
      Length3(JoinNodes(g[..|g| - 1]), ", ", NodeJson(g[|g| - 1]));
      NodeJsonLength(g[|g| - 1]);
      SeparatorLengths();
    }
  }

  lemma GroupJsonLength(g: Paragraph)
    ensures Length(GroupJson(g)) == GroupSize(g)
  {
    Length3("[", JoinNodes(g), "]");
    JoinNodesLength(g);
    SeparatorLengths();
  }

  lemma {:induction false} JoinGroupsLength(c: seq<Paragraph>)
    ensures Length(JoinGroups(c)) == GroupsSize(c)
  {
    if |c| == 1 {
      GroupJsonLength(c[0]);
    } else if |c| > 1 {
      JoinGroupsLength(c[..|c| - 1]);
      Length3(JoinGroups(c[..|c| - 1]), ", ", GroupJson(c[|c| - 1]));
      GroupJsonLength(c[|c| - 1]);
      SeparatorLengths();
    }
  }

  lemma EnvelopeLength(title: string, content: seq<Paragraph>)
    ensures Length(Envelope(title, content)) == PayloadSize(title, content)
  {
    Length3(EnvelopeHead, Quote(title), ContentKey);
    Length3(EnvelopeHead + Quote(title) + ContentKey, JoinGroups(content), EnvelopeTail);
    QuoteLength(title);
    JoinGroupsLength(content);
    EnvelopeKeyLengths();
  }

  /** Appending a group to the content adds its size and, unless it is the
      first, two bytes of separator: the payload strictly grows. */
  lemma AppendGroupGrows(title: string, content: seq<Paragraph>, g: Paragraph)
    ensures |BuildPostPayload(title, content + [g])|
      == |BuildPostPayload(title, content)| + (if content == [] then 0 else 2) + GroupSize(g)
    ensures |BuildPostPayload(title, content + [g])| > |BuildPostPayload(title, content)|
  {
    GroupsSnoc(content, g);
  }

  /** Appending a node to the last group adds its size and, unless it is
      the group's first, two bytes of separator: the payload strictly grows. */
  lemma AppendNodeGrows(title: string, content: seq<Paragraph>, g: Paragraph, n: Node)
    ensures |BuildPostPayload(title, content + [g + [n]])|
      == |BuildPostPayload(title, content + [g])| + (if g == [] then 0 else 2) + NodeSize(n)
    ensures |BuildPostPayload(title, content + [g + [n]])| > |BuildPostPayload(title, content + [g])|
  {
    GroupsSnoc(content, g);
    GroupsSnoc(content, g + [n]);
    assert (g + [n])[..|g|] == g;
  }

  lemma GroupsSnoc(content: seq<Paragraph>, g: Paragraph)
    ensures GroupsSize(content + [g]) == GroupsSize(content) + (if content == [] then 0 else 2) + GroupSize(g)
  {
    assert (content + [g])[..|content|] == content;
  }
}
