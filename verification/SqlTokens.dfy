/**
 What a parameter marker is, said without the scanner: SQL text is a list of tokens, and substitution replaces exactly
 the markers among them.
 */
module SqlTokens {
  import opened Numbers
  import opened Params

  /**
   A quoted string, a quoted identifier, a comment up to the end of its line, a bracketed comment, the rest of a text
   whose last region is never closed, a parameter marker, or any other byte. Slash, star, slash is a whole comment to
   the scanner, which takes its star for the closing one as well.
   */
  datatype Token =
    | Quoted(body: Bytes)
    | Identifier(body: Bytes)
    | LineComment(body: Bytes)
    | BlockComment(body: Bytes)
    | ShortComment
    | Unclosed(text: Bytes)
    | Marker
    | Other(c: Byte)

  function Spell(t: Token): Bytes {
    match t
    case Quoted(body) => [0x27] + body + [0x27]
    case Identifier(body) => [0x22] + body + [0x22]
    case LineComment(body) => [0x2D, 0x2D] + body + [0x0A]
    case BlockComment(body) => [0x2F, 0x2A] + body + [0x2A, 0x2F]
    case ShortComment => [0x2F, 0x2A, 0x2F]
    case Unclosed(text) => text
    case Marker => [0x3F]
    case Other(c) => [c]
  }

  function SpellAll(tokens: seq<Token>): Bytes {
    if tokens == [] then [] else Spell(tokens[0]) + SpellAll(tokens[1..])
  }

  /** A star directly before a slash. */
  predicate ClosesAt(s: Bytes, i: nat) {
    i + 1 < |s| && s[i] == 0x2A && s[i + 1] == 0x2F
  }

  ghost predicate Closes(s: Bytes) {
    exists i: nat :: ClosesAt(s, i)
  }

  /** The opener of a region that does not end before the text does. */
  ghost predicate NeverCloses(text: Bytes) {
    |text| > 0
    && ((text[0] == 0x27 && 0x27 !in text[1..])
        || (text[0] == 0x22 && 0x22 !in text[1..])
        || (|text| > 1 && text[0] == text[1] == 0x2D && 0x0A !in text[2..])
        || (|text| > 1 && text[0] == 0x2F && text[1] == 0x2A && !Closes(text[1..])))
  }

  /** No region ends before its end, and no other byte opens one together with what follows. */
  ghost predicate TokenOk(t: Token, next: Bytes) {
    match t
    case Quoted(body) => 0x27 !in body
    case Identifier(body) => 0x22 !in body
    case LineComment(body) => 0x0A !in body
    case BlockComment(body) => !Closes([0x2A] + body)
    case Unclosed(text) => next == [] && NeverCloses(text)
    case ShortComment | Marker => true
    case Other(c) =>
      c !in {0x27, 0x22, 0x3F}
      && !(c == 0x2D && next != [] && next[0] == 0x2D)
      && !(c == 0x2F && next != [] && next[0] == 0x2A)
  }

  ghost predicate WellSpelled(tokens: seq<Token>) {
    tokens == [] || (TokenOk(tokens[0], SpellAll(tokens[1..])) && WellSpelled(tokens[1..]))
  }

  function MarkerCount(tokens: seq<Token>): nat {
    if tokens == [] then 0 else (if tokens[0].Marker? then 1 else 0) + MarkerCount(tokens[1..])
  }

  /** The k-th marker is spelled as the k-th literal, every other token as itself. */
  function Replaced(tokens: seq<Token>, literals: seq<Bytes>): Bytes
    requires MarkerCount(tokens) == |literals|
  {
    if tokens == [] then []
    else if tokens[0].Marker? then literals[0] + Replaced(tokens[1..], literals[1..])
    else Spell(tokens[0]) + Replaced(tokens[1..], literals)
  }

  // ---- the scanner inside a region ----

  /** Inside a string, an identifier or a line comment, everything up to the closing byte is passed over. */
  lemma {:induction false} RegionHides(mode: Mode, body: Bytes, stop: Byte, rest: Bytes, literals: seq<Bytes>)
    requires (mode == InString && stop == 0x27) || (mode == InIdent && stop == 0x22) || (mode == InLine && stop == 0x0A)
    requires stop !in body
    ensures Substitute(mode, body + [stop] + rest, literals)
            == Substitute(Normal, rest, literals).Prepend(body + [stop])
  {
    if body == [] {
      assert [] + [stop] + rest == [stop] + rest;
      OneByteTaken(mode, stop, rest, literals);
      assert [] + [stop] == [stop];
    } else {
      var c, others := body[0], body[1..];
      assert c in body;
      assert body + [stop] + rest == [c] + (others + [stop] + rest);
      OneByteTaken(mode, c, others + [stop] + rest, literals);
      RegionHides(mode, others, stop, rest, literals);
      Joined([c], others + [stop], Substitute(Normal, rest, literals));
      assert [c] + (others + [stop]) == body + [stop];
    }
  }

  lemma Joined(a: Bytes, b: Bytes, o: Outcome)
    ensures o.Prepend(b).Prepend(a) == o.Prepend(a + b)
  {
    if o.Text? {
      assert a + (b + o.sql) == a + b + o.sql;
    }
  }

  /** Inside a bracketed comment, everything up to the first star before a slash is. */
  lemma {:induction false} CommentHides(body: Bytes, rest: Bytes, literals: seq<Bytes>)
    requires !Closes(body)
    ensures Substitute(InBlock, body + [0x2A, 0x2F] + rest, literals)
            == Substitute(Normal, rest, literals).Prepend(body + [0x2A, 0x2F])
  {
    var s := body + [0x2A, 0x2F] + rest;
    if body == [] {
      assert s[..2] == [0x2A, 0x2F] && s[2..] == rest;
      assert [] + [0x2A, 0x2F] == [0x2A, 0x2F];
    } else {
      var c, others := body[0], body[1..];
      var tail := others + [0x2A, 0x2F] + rest;
      assert s == [c] + tail;
      assert tail[0] == if others == [] then 0x2A else others[0];
      assert !ClosesAt(body, 0);
      OneByteTaken(InBlock, c, tail, literals);
      StillOpen(body);
      CommentHides(others, rest, literals);
      Joined([c], others + [0x2A, 0x2F], Substitute(Normal, rest, literals));
      assert [c] + (others + [0x2A, 0x2F]) == body + [0x2A, 0x2F];
    }
  }

  lemma StillOpen(s: Bytes)
    requires s != [] && !Closes(s)
    ensures !Closes(s[1..])
  {
    forall i: nat ensures !ClosesAt(s[1..], i) {
      assert ClosesAt(s[1..], i) <==> ClosesAt(s, i + 1);
    }
  }

  function AllTaken(s: Bytes, literals: seq<Bytes>): Outcome {
    if literals == [] then Text(s) else FewerMarkers
  }

  /** A region that is never closed hides the rest of the text. */
  lemma {:induction false} OpenHides(mode: Mode, s: Bytes, literals: seq<Bytes>)
    requires mode != Normal
    requires mode == InString ==> 0x27 !in s
    requires mode == InIdent ==> 0x22 !in s
    requires mode == InLine ==> 0x0A !in s
    requires mode == InBlock ==> !Closes(s)
    ensures Substitute(mode, s, literals) == AllTaken(s, literals)
  {
    if s != [] {
      var c, others := s[0], s[1..];
      assert s == [c] + others && c in s;
      assert mode == InBlock ==> !ClosesAt(s, 0);
      OneByteTaken(mode, c, others, literals);
      if mode == InBlock {
        StillOpen(s);
      }
      OpenHides(mode, others, literals);
    }
  }

  // ---- one token ----

  /** Every token but a marker is copied, and scanning goes on behind it as at the start of a text. */
  lemma {:induction false} TokenCopied(t: Token, rest: Bytes, literals: seq<Bytes>)
    requires TokenOk(t, rest) && !t.Marker?
    ensures Substitute(Normal, Spell(t) + rest, literals) == Substitute(Normal, rest, literals).Prepend(Spell(t))
  {
    match t {
      case Quoted(body) => RegionCopied(InString, 0x27, body, rest, literals);
      case Identifier(body) => RegionCopied(InIdent, 0x22, body, rest, literals);
      case LineComment(body) => LineCommentCopied(body, rest, literals);
      case BlockComment(body) => BlockCommentCopied(body, rest, literals);
      case ShortComment => ShortCommentCopied(rest, literals);
      case Unclosed(text) => UnclosedCopied(text, literals);
      case Other(c) => OneByteTaken(Normal, c, rest, literals);
      case Marker =>
    }
  }

  lemma {:induction false} RegionCopied(mode: Mode, quote: Byte, body: Bytes, rest: Bytes, literals: seq<Bytes>)
    requires (mode == InString && quote == 0x27) || (mode == InIdent && quote == 0x22)
    requires quote !in body
    ensures var text := [quote] + body + [quote];
            Substitute(Normal, text + rest, literals) == Substitute(Normal, rest, literals).Prepend(text)
  {
    var inside := body + [quote] + rest;
    assert [quote] + body + [quote] + rest == [quote] + inside;
    OneByteTaken(Normal, quote, inside, literals);
    RegionHides(mode, body, quote, rest, literals);
    Joined([quote], body + [quote], Substitute(Normal, rest, literals));
    assert [quote] + (body + [quote]) == [quote] + body + [quote];
  }

  lemma {:induction false} LineCommentCopied(body: Bytes, rest: Bytes, literals: seq<Bytes>)
    requires 0x0A !in body
    ensures var text := [0x2D, 0x2D] + body + [0x0A];
            Substitute(Normal, text + rest, literals) == Substitute(Normal, rest, literals).Prepend(text)
  {
    var inside := [0x2D] + body + [0x0A] + rest;
    assert [0x2D, 0x2D] + body + [0x0A] + rest == [0x2D] + inside;
    OneByteTaken(Normal, 0x2D, inside, literals);
    RegionHides(InLine, [0x2D] + body, 0x0A, rest, literals);
    Joined([0x2D], [0x2D] + body + [0x0A], Substitute(Normal, rest, literals));
    assert [0x2D] + ([0x2D] + body + [0x0A]) == [0x2D, 0x2D] + body + [0x0A];
  }

  lemma {:induction false} BlockCommentCopied(body: Bytes, rest: Bytes, literals: seq<Bytes>)
    requires !Closes([0x2A] + body)
    ensures var text := [0x2F, 0x2A] + body + [0x2A, 0x2F];
            Substitute(Normal, text + rest, literals) == Substitute(Normal, rest, literals).Prepend(text)
  {
    var inside := [0x2A] + body + [0x2A, 0x2F] + rest;
    assert [0x2F, 0x2A] + body + [0x2A, 0x2F] + rest == [0x2F] + inside;
    OneByteTaken(Normal, 0x2F, inside, literals);
    CommentHides([0x2A] + body, rest, literals);
    Joined([0x2F], [0x2A] + body + [0x2A, 0x2F], Substitute(Normal, rest, literals));
    assert [0x2F] + ([0x2A] + body + [0x2A, 0x2F]) == [0x2F, 0x2A] + body + [0x2A, 0x2F];
  }

  lemma {:induction false} ShortCommentCopied(rest: Bytes, literals: seq<Bytes>)
    ensures Substitute(Normal, [0x2F, 0x2A, 0x2F] + rest, literals)
            == Substitute(Normal, rest, literals).Prepend([0x2F, 0x2A, 0x2F])
  {
    var inside := [0x2A, 0x2F] + rest;
    assert [0x2F, 0x2A, 0x2F] + rest == [0x2F] + inside;
    OneByteTaken(Normal, 0x2F, inside, literals);
    assert inside == [] + [0x2A, 0x2F] + rest;
    CommentHides([], rest, literals);
    assert [] + [0x2A, 0x2F] == [0x2A, 0x2F];
    Joined([0x2F], [0x2A, 0x2F], Substitute(Normal, rest, literals));
    assert [0x2F] + [0x2A, 0x2F] == [0x2F, 0x2A, 0x2F];
  }

  lemma {:induction false} UnclosedCopied(text: Bytes, literals: seq<Bytes>)
    requires NeverCloses(text)
    ensures Substitute(Normal, text + [], literals) == Substitute(Normal, [], literals).Prepend(text)
  {
    var c, inside := text[0], text[1..];
    assert text + [] == text == [c] + inside;
    OneByteTaken(Normal, c, inside, literals);
    var mode := if c == 0x27 then InString else if c == 0x22 then InIdent else if c == 0x2D then InLine else InBlock;
    if mode == InLine {
      assert inside == [0x2D] + text[2..];
    }
    OpenHides(mode, inside, literals);
    assert Substitute(Normal, [], literals) == AllTaken([], literals);
  }

  // ---- whole texts ----

  /** Substitution in a text of tokens replaces its markers; it fails exactly with too few or too many values. */
  lemma {:induction false} TokensSubstituted(tokens: seq<Token>, literals: seq<Bytes>)
    requires WellSpelled(tokens)
    ensures Substitute(Normal, SpellAll(tokens), literals)
            == if MarkerCount(tokens) > |literals| then MoreMarkers
               else if MarkerCount(tokens) < |literals| then FewerMarkers
               else Text(Replaced(tokens, literals))
  {
    if tokens != [] {
      var rest := SpellAll(tokens[1..]);
      if !tokens[0].Marker? {
        TokenCopied(tokens[0], rest, literals);
        TokensSubstituted(tokens[1..], literals);
      } else {
        MarkerTaken(rest, literals);
        if literals != [] {
          TokensSubstituted(tokens[1..], literals[1..]);
        }
      }
    }
  }

  /** Every text is a text of tokens, so the theorem above speaks of every input. */
  lemma {:induction false} EveryText(s: Bytes) returns (tokens: seq<Token>)
    ensures WellSpelled(tokens) && SpellAll(tokens) == s
    decreases |s|
  {
    if s == [] {
      tokens := [];
    } else {
      var t, rest := FirstToken(s);
      var others := EveryText(rest);
      tokens := [t] + others;
      assert tokens[1..] == others;
    }
  }

  lemma FirstToken(s: Bytes) returns (t: Token, rest: Bytes)
    requires s != []
    ensures TokenOk(t, rest) && Spell(t) + rest == s && |rest| < |s|
  {
    var c := s[0];
    if c == 0x27 || c == 0x22 {
      t, rest := FirstRegion(s);
    } else if |s| > 1 && c == 0x2D && s[1] == 0x2D {
      if 0x0A in s[2..] {
        var i := Find(s[2..], 0x0A);
        t, rest := LineComment(s[2..][..i]), s[2..][i + 1..];
        assert s == [0x2D, 0x2D] + s[2..];
        assert s[2..] == s[2..][..i] + [0x0A] + s[2..][i + 1..];
      } else {
        t, rest := Unclosed(s), [];
      }
    } else if |s| > 1 && c == 0x2F && s[1] == 0x2A {
      t, rest := FirstComment(s);
    } else {
      t, rest := if c == 0x3F then Marker else Other(c), s[1..];
    }
  }

  lemma FirstRegion(s: Bytes) returns (t: Token, rest: Bytes)
    requires s != [] && (s[0] == 0x27 || s[0] == 0x22)
    ensures TokenOk(t, rest) && Spell(t) + rest == s && |rest| < |s|
  {
    var quote, inside := s[0], s[1..];
    if quote in inside {
      var i := Find(inside, quote);
      t, rest := if quote == 0x27 then Quoted(inside[..i]) else Identifier(inside[..i]), inside[i + 1..];
      assert s == [quote] + inside;
      assert inside == inside[..i] + [quote] + inside[i + 1..];
    } else {
      t, rest := Unclosed(s), [];
    }
  }

  lemma FirstComment(s: Bytes) returns (t: Token, rest: Bytes)
    requires |s| > 1 && s[0] == 0x2F && s[1] == 0x2A
    ensures TokenOk(t, rest) && Spell(t) + rest == s && |rest| < |s|
  {
    var inside := s[1..];
    if Closes(inside) {
      var i := FindClose(inside);
      rest := inside[i + 2..];
      assert s == [0x2F] + inside && inside == inside[..i] + [0x2A, 0x2F] + rest;
      assert inside[..i + 1][..i] == inside[..i];
      if i == 0 {
        t := ShortComment;
      } else {
        t := BlockComment(inside[1..i]);
        assert [0x2A] + inside[1..i] == inside[..i];
        FrontOpen(inside[..i + 1], i);
      }
    } else {
      t, rest := Unclosed(s), [];
    }
  }

  lemma FrontOpen(s: Bytes, i: nat)
    requires i <= |s| && !Closes(s)
    ensures !Closes(s[..i])
  {
    forall k: nat ensures !ClosesAt(s[..i], k) {
      assert ClosesAt(s[..i], k) ==> ClosesAt(s, k);
    }
  }

  lemma {:induction false} Find(s: Bytes, c: Byte) returns (i: nat)
    requires c in s
    ensures i < |s| && s[i] == c && c !in s[..i]
  {
    if s[0] == c {
      i := 0;
    } else {
      var j := Find(s[1..], c);
      i := j + 1;
      assert s[..i] == [s[0]] + s[1..][..j];
    }
  }

  lemma {:induction false} FindClose(s: Bytes) returns (i: nat)
    requires Closes(s)
    ensures ClosesAt(s, i) && !Closes(s[..i + 1])
  {
    if ClosesAt(s, 0) {
      i := 0;
    } else {
      var k: nat :| ClosesAt(s, k);
      assert ClosesAt(s[1..], k - 1);
      var j := FindClose(s[1..]);
      i := j + 1;
      var front := s[..i + 1];
      forall k: nat ensures !ClosesAt(front, k) {
        assert ClosesAt(front, k) ==> ClosesAt(s, k);
        assert k > 0 ==> (ClosesAt(front, k) <==> ClosesAt(s[1..][..j + 1], k - 1));
      }
    }
  }

  /** The markers that the scanner counts are the marker tokens. */
  lemma {:induction false} MarkersAreTokens(tokens: seq<Token>)
    requires WellSpelled(tokens)
    ensures Markers(Normal, SpellAll(tokens)) == MarkerCount(tokens)
  {
    var literals := seq(MarkerCount(tokens), i => []);
    TokensSubstituted(tokens, literals);
    SubstituteIs(Normal, SpellAll(tokens), literals);
  }

  /** No quote and no comment opener. */
  predicate PlainSql(s: Bytes) {
    forall i | 0 <= i < |s| ::
      s[i] !in {0x27, 0x22}
      && (i + 1 < |s| ==> !(s[i] == 0x2D && s[i + 1] == 0x2D) && !(s[i] == 0x2F && s[i + 1] == 0x2A))
  }

  function Count(c: Byte, s: Bytes): nat {
    if s == [] then 0 else (if s[0] == c then 1 else 0) + Count(c, s[1..])
  }

  /** In such a text every question mark is a marker. */
  lemma {:induction false} PlainMarkers(s: Bytes)
    requires PlainSql(s)
    ensures Markers(Normal, s) == Count(0x3F, s)
  {
    if s != [] {
      PlainMarkers(s[1..]);
    }
  }
}
