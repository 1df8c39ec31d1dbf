// `split_text_by_bytes(text, max_bytes)` (yarb.py:161-170): cut a string into
// consecutive runs of whole characters, each taking at most `max_bytes` bytes
// in UTF-8, growing the current run greedily one character at a time.

module ByteSplit {
  import opened Utf8
  import opened Sequences

  /** The pieces still to come when the generator holds `buf` and has yet to
      read `rest`: a character that would push `buf` over the limit first
      yields `buf` (even when empty) and then starts a new run with itself. */
  function SplitFrom(buf: string, rest: string, maxBytes: int): seq<string>
    decreases |rest|
  {
    if rest == [] then
      (if buf == [] then [] else [buf])
    else if Length(buf + [rest[0]]) > maxBytes then
      [buf] + SplitFrom([rest[0]], rest[1..], maxBytes)
    else
      SplitFrom(buf + [rest[0]], rest[1..], maxBytes)
  }

  /** Everything `split_text_by_bytes(text, max_bytes)` yields, in order. It
      keeps the generator's promise: the pieces concatenate to `text`, every
      piece is bounded, every piece but the last is maximal, and no piece is
      empty except a first piece, which is empty exactly when the first
      character alone is over the limit. */
  function SplitText(text: string, maxBytes: int): (pieces: seq<string>)
    ensures IsGreedySplit(text, maxBytes, pieces)
  {
    SplitFromStart(text, maxBytes);
    SplitFrom([], text, maxBytes)
  }

  /** The generator's loop, collecting what it yields. */
  method SplitTextByBytes(text: string, maxBytes: int) returns (pieces: seq<string>)
    ensures pieces == SplitText(text, maxBytes)
  {
    pieces := [];
    var buf: string := [];
    for i := 0 to |text|
      invariant pieces + SplitFrom(buf, text[i..], maxBytes) == SplitText(text, maxBytes)
    {
      var ch := text[i];
      assert text[i..][0] == ch && text[i..][1..] == text[i + 1..];
      EncodeLength(buf + [ch]);
      if |Encode(buf + [ch])| > maxBytes {
        pieces := pieces + [buf];
        buf := [ch];
      } else {
        buf := buf + [ch];
      }
    }
    if buf != [] {
      pieces := pieces + [buf];
    }
  }

  /** A piece respects the limit, or is at most one character. */
  predicate Bounded(p: string, maxBytes: int) {
    Length(p) <= maxBytes || |p| <= 1
  }

  /** Each piece after the first could not have taken its successor's first
      character without going over the limit. */
  predicate Maximal(pieces: seq<string>, maxBytes: int) {
    forall i :: 1 <= i < |pieces| ==> pieces[i] != [] && Length(pieces[i - 1] + [pieces[i][0]]) > maxBytes
  }

  /** A sequence of non-empty, bounded, maximal pieces. */
  predicate GreedyRuns(pieces: seq<string>, maxBytes: int) {
    && (forall i :: 0 <= i < |pieces| ==> pieces[i] != [] && Bounded(pieces[i], maxBytes))
    && Maximal(pieces, maxBytes)
  }

  /** What `split_text_by_bytes` promises, stated without its loop: the
      pieces concatenate to `text`; every piece is bounded; every piece but
      the last is maximal; no piece is empty except a first piece, which is
      empty exactly when the first character alone is over the limit. */
  predicate IsGreedySplit(text: string, maxBytes: int, pieces: seq<string>) {
    && Concat(pieces) == text
    && (forall i :: 0 <= i < |pieces| ==> Bounded(pieces[i], maxBytes))
    && (forall i :: 1 <= i < |pieces| ==> pieces[i] != [])
    && (pieces != [] ==> (pieces[0] == [] <==> text != [] && CharLength(text[0]) > maxBytes))
    && Maximal(pieces, maxBytes)
  }

  lemma GreedyRunsCons(p: string, qs: seq<string>, maxBytes: int)
    requires p != [] && Bounded(p, maxBytes) && GreedyRuns(qs, maxBytes)
    requires qs != [] ==> Length(p + [qs[0][0]]) > maxBytes
    ensures GreedyRuns([p] + qs, maxBytes)
  {
    var ps := [p] + qs;
    forall i | 1 <= i < |ps|
      ensures ps[i] != [] && Length(ps[i - 1] + [ps[i][0]]) > maxBytes
    {
      assert ps[i] == qs[i - 1];
      if i > 1 { assert ps[i - 1] == qs[i - 2]; }
    }
  }

  lemma {:induction false} SplitFromRuns(buf: string, rest: string, maxBytes: int)
    requires buf != [] && Bounded(buf, maxBytes)
    ensures var ps := SplitFrom(buf, rest, maxBytes);
      && GreedyRuns(ps, maxBytes) && Concat(ps) == buf + rest
      && ps != [] && |buf| <= |ps[0]| && ps[0][..|buf|] == buf
    decreases |rest|
  {
    var ps := SplitFrom(buf, rest, maxBytes);
    if rest == [] {
      assert ps == [buf];
      assert [buf][..0] == [];
    } else {
      var c := rest[0];
      assert rest == [c] + rest[1..];
      if Length(buf + [c]) > maxBytes {
        var qs := SplitFrom([c], rest[1..], maxBytes);
        SplitFromRuns([c], rest[1..], maxBytes);
        assert ps == [buf] + qs;
        assert Concat(ps) == ps[0] + Concat(ps[1..]);
        assert ps[1..] == qs;
        assert qs[0][0] == c;
        GreedyRunsCons(buf, qs, maxBytes);
      } else {
        assert ps == SplitFrom(buf + [c], rest[1..], maxBytes);
        SplitFromRuns(buf + [c], rest[1..], maxBytes);
        assert (buf + [c]) + rest[1..] == buf + rest;
        assert ps[0][..|buf|] == ps[0][..|buf| + 1][..|buf|];
      }
    }
  }

  /** The split from an empty run is greedy. */
  lemma SplitFromStart(text: string, maxBytes: int)
    ensures IsGreedySplit(text, maxBytes, SplitFrom([], text, maxBytes))
  {
    var ps := SplitFrom([], text, maxBytes);
    if text != [] {
      var c := text[0];
      SingleLength(c);
      assert [] + [c] == [c];
      SplitFromRuns([c], text[1..], maxBytes);
      var qs := SplitFrom([c], text[1..], maxBytes);
      assert [c] + text[1..] == text;
      if CharLength(c) > maxBytes {
        assert ps == [[]] + qs;
        assert Concat(ps) == ps[0] + Concat(ps[1..]);
        assert ps[1..] == qs;
      }
    }
  }

  lemma {:induction false} SplitFromUnique(buf: string, rest: string, maxBytes: int, ps: seq<string>)
    requires buf != [] && GreedyRuns(ps, maxBytes)
    requires Concat(ps) == buf + rest
    requires ps != [] && |buf| <= |ps[0]| && ps[0][..|buf|] == buf
    ensures ps == SplitFrom(buf, rest, maxBytes)
    decreases |rest|
  {
    assert Concat(ps) == ps[0] + Concat(ps[1..]);
    var tail := ps[1..];
    if rest == [] {
      assert ps[0] == buf;
      assert ps == [buf];
    } else {
      var c := rest[0];
      if |ps[0]| == |buf| {
        assert ps[0] == buf;
        assert (buf + rest)[|buf|..] == rest;
        assert (ps[0] + Concat(tail))[|buf|..] == Concat(tail);
        assert Concat(tail) == rest;
        assert tail != [];
        assert Concat(tail) == tail[0] + Concat(tail[1..]);
        assert tail[0] == ps[1];
        assert tail[0][0] == c;
        assert Length(buf + [c]) > maxBytes;
        assert ps[0] == buf;
        SplitFromUnique([c], rest[1..], maxBytes, tail);
        assert ps == [buf] + tail;
      } else {
        assert ps[0][|buf|] == (buf + rest)[|buf|] == c;
        assert ps[0][..|buf| + 1] == buf + [c];
        assert |ps[0]| >= 2;
        PrefixLength(ps[0], |buf| + 1);
        assert Length(buf + [c]) <= maxBytes;
        assert (buf + [c]) + rest[1..] == buf + rest;
        assert ps[0][..|buf + [c]|] == buf + [c];
        SplitFromUnique(buf + [c], rest[1..], maxBytes, ps);
      }
    }
  }

  /** The promise determines the pieces: any greedy split of `text` is the
      one `split_text_by_bytes` yields. */
  lemma GreedySplitUnique(text: string, maxBytes: int, ps: seq<string>)
    requires IsGreedySplit(text, maxBytes, ps)
    ensures ps == SplitText(text, maxBytes)
  {
    if text != [] {
      var c := text[0];
      SingleLength(c);
      assert [] + [c] == [c];
      assert Concat(ps) == ps[0] + Concat(ps[1..]);
      if CharLength(c) > maxBytes {
        var tail := ps[1..];
        assert Concat(tail) == text;
        assert tail != [];
        assert Concat(tail) == tail[0] + Concat(tail[1..]);
        assert tail[0] == ps[1];
        SplitFromUnique([c], text[1..], maxBytes, tail);
        assert ps == [[]] + tail;
      } else {
        assert ps[0] != [];
        assert ps[0][..1] == [c];
        SplitFromUnique([c], text[1..], maxBytes, ps);
      }
    }
  }

  /** Splitting cuts only between characters, so the bytes of the pieces,
      laid end to end, are the bytes of the input. */
  lemma {:induction false} SplitPreservesBytes(pieces: seq<string>)
    ensures Encode(Concat(pieces)) == Concat(seq(|pieces|, i requires 0 <= i < |pieces| => Encode(pieces[i])))
  {
    if pieces != [] {
      var rest := pieces[1..];
      SplitPreservesBytes(rest);
      EncodeAppend(pieces[0], Concat(rest));
      var enc := seq(|pieces|, i requires 0 <= i < |pieces| => Encode(pieces[i]));
      assert enc[1..] == seq(|rest|, i requires 0 <= i < |rest| => Encode(rest[i]));
    }
  }
}
