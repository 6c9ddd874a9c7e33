/** Client-side parameter binding: rendering scalars as SQL literals and putting them in place of the markers. */
module Params {
  import opened Numbers

  const QUOTE: Byte := 0x27
  const IDENT_QUOTE: Byte := 0x22
  const DASH: Byte := 0x2D
  const SLASH: Byte := 0x2F
  const STAR: Byte := 0x2A
  const MARKER: Byte := 0x3F
  const NEWLINE: Byte := 0x0A
  const DOT: Byte := 0x2E
  const ZERO_DIGIT: Byte := 0x30

  // ---- the lexer ----

  /** What the scanner is inside of. */
  datatype Mode = Normal | InString | InIdent | InLine | InBlock

  function Peek(s: Bytes, i: nat): int {
    if i < |s| then s[i] else -1
  }

  /** The number of bytes the scanner takes at once: two for the end of a block comment, else one. */
  function TokenLength(mode: Mode, s: Bytes): (n: nat)
    requires s != []
    ensures 1 <= n <= |s|
  {
    if mode.InBlock? && s[0] == STAR && Peek(s, 1) == SLASH then 2 else 1
  }

  function NextMode(mode: Mode, s: Bytes): Mode
    requires s != []
  {
    var c := s[0];
    match mode
    case InLine => if c == NEWLINE then Normal else InLine
    case InBlock => if c == STAR && Peek(s, 1) == SLASH then Normal else InBlock
    case InString => if c == QUOTE then Normal else InString
    case InIdent => if c == IDENT_QUOTE then Normal else InIdent
    case Normal =>
      if c == QUOTE then InString
      else if c == IDENT_QUOTE then InIdent
      else if c == DASH && Peek(s, 1) == DASH then InLine
      else if c == SLASH && Peek(s, 1) == STAR then InBlock
      else Normal
  }

  /** A marker counts only outside strings, identifiers and comments. */
  predicate AtMarker(mode: Mode, s: Bytes) {
    s != [] && mode.Normal? && s[0] == MARKER
  }

  // ---- substitution ----

  datatype Outcome = Text(sql: Bytes) | MoreMarkers | FewerMarkers {
    function Prepend(front: Bytes): Outcome {
      if Text? then Text(front + sql) else this
    }
  }

  function Substitute(mode: Mode, s: Bytes, literals: seq<Bytes>): Outcome
    decreases |s|
  {
    if s == [] then (if literals == [] then Text([]) else FewerMarkers)
    else if AtMarker(mode, s) then
      (if literals == [] then MoreMarkers
       else Substitute(Normal, s[1..], literals[1..]).Prepend(literals[0]))
    else
      var n := TokenLength(mode, s);
      Substitute(NextMode(mode, s), s[n..], literals).Prepend(s[..n])
  }

  /** The number of top-level markers. */
  function Markers(mode: Mode, s: Bytes): nat
    decreases |s|
  {
    if s == [] then 0
    else if AtMarker(mode, s) then 1 + Markers(Normal, s[1..])
    else Markers(NextMode(mode, s), s[TokenLength(mode, s)..])
  }

  /** The text before, between and after the markers. */
  function Pieces(mode: Mode, s: Bytes): (pieces: seq<Bytes>)
    ensures |pieces| == Markers(mode, s) + 1
    decreases |s|
  {
    if s == [] then [[]]
    else if AtMarker(mode, s) then [[]] + Pieces(Normal, s[1..])
    else
      var n := TokenLength(mode, s);
      var rest := Pieces(NextMode(mode, s), s[n..]);
      [s[..n] + rest[0]] + rest[1..]
  }

  /** Pieces with one literal between each two. */
  function Join(pieces: seq<Bytes>, literals: seq<Bytes>): Bytes
    requires |pieces| == |literals| + 1
  {
    if literals == [] then pieces[0] else pieces[0] + literals[0] + Join(pieces[1..], literals[1..])
  }

  lemma {:induction false} JoinPrepend(front: Bytes, pieces: seq<Bytes>, literals: seq<Bytes>)
    requires |pieces| == |literals| + 1
    ensures Join([front + pieces[0]] + pieces[1..], literals) == front + Join(pieces, literals)
  {
    var prefixed := [front + pieces[0]] + pieces[1..];
    if literals != [] {
      var rest := Join(pieces[1..], literals[1..]);
      assert prefixed[1..] == pieces[1..];
      assert front + pieces[0] + literals[0] + rest == front + (pieces[0] + literals[0] + rest);
    }
  }

  /**
   It succeeds exactly when there are as many markers as values, and then the k-th marker has become the k-th literal
   with every other byte unchanged and in order.
   */
  lemma {:induction false} SubstituteIs(mode: Mode, s: Bytes, literals: seq<Bytes>)
    ensures Substitute(mode, s, literals)
            == if Markers(mode, s) > |literals| then MoreMarkers
               else if Markers(mode, s) < |literals| then FewerMarkers
               else Text(Join(Pieces(mode, s), literals))
    decreases |s|
  {
    if s == [] {
    } else if AtMarker(mode, s) {
      if literals != [] {
        SubstituteIs(Normal, s[1..], literals[1..]);
        assert Pieces(mode, s)[1..] == Pieces(Normal, s[1..]);
      }
    } else {
      var n, next := TokenLength(mode, s), NextMode(mode, s);
      SubstituteIs(next, s[n..], literals);
      if Markers(mode, s) == |literals| {
        JoinPrepend(s[..n], Pieces(next, s[n..]), literals);
      }
    }
  }

  /** The pieces are the input cut at its markers. */
  lemma {:induction false} PiecesJoin(mode: Mode, s: Bytes)
    ensures Join(Pieces(mode, s), seq(Markers(mode, s), _ => [MARKER])) == s
    decreases |s|
  {
    hide TokenLength, NextMode;
    var marks := seq(Markers(mode, s), _ => [MARKER]);
    if s == [] {
    } else if AtMarker(mode, s) {
      PiecesJoin(Normal, s[1..]);
      assert Pieces(mode, s)[1..] == Pieces(Normal, s[1..]);
      assert marks[1..] == seq(Markers(Normal, s[1..]), _ => [MARKER]);
      assert s == [MARKER] + s[1..];
    } else {
      var n, next := TokenLength(mode, s), NextMode(mode, s);
      PiecesJoin(next, s[n..]);
      JoinPrepend(s[..n], Pieces(next, s[n..]), marks);
      assert s == s[..n] + s[n..];
    }
  }

  // ---- what the output means to the same lexer ----

  /** For every byte, the mode in which the scanner takes it. */
  function Modes(mode: Mode, s: Bytes): (modes: seq<Mode>)
    ensures |modes| == |s|
    decreases |s|
  {
    if s == [] then []
    else
      var n := TokenLength(mode, s);
      Repeat(mode, n) + Modes(NextMode(mode, s), s[n..])
  }

  /** The modes meant for the output: those of the input for its own bytes, and for a literal those it has by itself. */
  function IntendedModes(mode: Mode, s: Bytes, literals: seq<Bytes>): seq<Mode>
    requires Markers(mode, s) == |literals|
    decreases |s|
  {
    if s == [] then []
    else if AtMarker(mode, s) then Modes(Normal, literals[0]) + IntendedModes(Normal, s[1..], literals[1..])
    else
      var n := TokenLength(mode, s);
      Repeat(mode, n) + IntendedModes(NextMode(mode, s), s[n..], literals)
  }

  /** From inside a string or not: no marker, no combining with what follows, and the end lies outside strings. */
  predicate Closed(inString: bool, s: Bytes)
    decreases |s|
  {
    if s == [] then !inString
    else if inString then Closed(s[0] != QUOTE, s[1..])
    else
      && s[0] != MARKER && s[0] != IDENT_QUOTE
      && (s[0] == DASH || s[0] == SLASH ==> |s| > 1 && s[1] != DASH && s[1] != STAR)
      && Closed(s[0] == QUOTE, s[1..])
  }

  predicate LiteralOk(literal: Bytes) {
    literal != [] && literal[0] != STAR && Closed(false, literal)
  }

  /** No literal that starts with a minus sign lands directly after a minus sign. */
  predicate NoDashClash(pieces: seq<Bytes>, literals: seq<Bytes>)
    requires |pieces| == |literals| + 1
  {
    forall k | 0 <= k < |literals| ::
      pieces[k] != [] && pieces[k][|pieces[k]| - 1] == DASH && literals[k] != [] ==> literals[k][0] != DASH
  }

  function StringMode(inString: bool): Mode {
    if inString then InString else Normal
  }

  /** A closed text is scanned the same way whatever follows it. */
  lemma {:induction false} ScanClosed(inString: bool, s: Bytes, rest: Bytes)
    requires Closed(inString, s)
    ensures Modes(StringMode(inString), s + rest) == Modes(StringMode(inString), s) + Modes(Normal, rest)
    ensures Markers(StringMode(inString), s + rest) == Markers(Normal, rest)
    decreases |s|
  {
    hide Modes, Markers;
    var mode := StringMode(inString);
    if s == [] {
      assert s + rest == rest;
      NoModes(mode);
    } else {
      var t := s + rest;
      assert t[0] == s[0] && t[1..] == s[1..] + rest;
      var next := if inString then s[0] != QUOTE else s[0] == QUOTE;
      OneByte(mode, t, StringMode(next));
      OneByte(mode, s, StringMode(next));
      ScanClosed(next, s[1..], rest);
    }
  }

  lemma {:induction false} NoModes(mode: Mode)
    ensures Modes(mode, []) == []
  {
  }

  lemma {:induction false} OneByte(mode: Mode, s: Bytes, next: Mode)
    requires s != [] && TokenLength(mode, s) == 1 && NextMode(mode, s) == next && !AtMarker(mode, s)
    ensures Modes(mode, s) == [mode] + Modes(next, s[1..])
    ensures Markers(mode, s) == Markers(next, s[1..])
  {
    assert Repeat(mode, 1) == [mode];
  }

  lemma DashClashHead(front: Bytes, pieces: seq<Bytes>, literals: seq<Bytes>)
    requires |pieces| == |literals| + 1 && front != []
    ensures NoDashClash([front + pieces[0]] + pieces[1..], literals)
            <==> NoDashClash(pieces, literals)
                 && (literals != [] && pieces[0] == [] && front[|front| - 1] == DASH && literals[0] != []
                     ==> literals[0][0] != DASH)
  {
    var prefixed := [front + pieces[0]] + pieces[1..];
    assert forall k | 0 < k < |pieces| :: prefixed[k] == pieces[k];
    if literals != [] {
      var head := front + pieces[0];
      assert head[|head| - 1] == if pieces[0] == [] then front[|front| - 1] else pieces[0][|pieces[0]| - 1];
    }
  }

  function Filled(mode: Mode, s: Bytes, literals: seq<Bytes>): Bytes
    requires Markers(mode, s) == |literals|
  {
    Join(Pieces(mode, s), literals)
  }

  predicate LiteralsOk(literals: seq<Bytes>) {
    forall k | 0 <= k < |literals| :: LiteralOk(literals[k])
  }

  /** The first byte of the output is that of the input, or that of the first literal at a marker. */
  lemma {:induction false} FilledHead(mode: Mode, s: Bytes, literals: seq<Bytes>)
    requires Markers(mode, s) == |literals| && LiteralsOk(literals)
    ensures Peek(Filled(mode, s, literals), 0) == if AtMarker(mode, s) then literals[0][0] else Peek(s, 0)
    ensures AtMarker(mode, s) ==> Filled(mode, s, literals) == literals[0] + Filled(Normal, s[1..], literals[1..])
    ensures s != [] && !AtMarker(mode, s) ==>
              var n := TokenLength(mode, s);
              Filled(mode, s, literals) == s[..n] + Filled(NextMode(mode, s), s[n..], literals)
    ensures literals != [] ==> (AtMarker(mode, s) <==> Pieces(mode, s)[0] == [])
  {
    if AtMarker(mode, s) {
      assert LiteralOk(literals[0]);
      assert Pieces(mode, s)[1..] == Pieces(Normal, s[1..]);
    } else if s != [] {
      var n := TokenLength(mode, s);
      JoinPrepend(s[..n], Pieces(NextMode(mode, s), s[n..]), literals);
    }
  }

  /** A token that is a minus sign is followed by a marker whose literal starts with one. */
  predicate HeadClash(mode: Mode, s: Bytes, literals: seq<Bytes>) {
    s != [] && !AtMarker(mode, s) && literals != []
    && AtMarker(NextMode(mode, s), s[TokenLength(mode, s)..])
    && s[TokenLength(mode, s) - 1] == DASH && Peek(literals[0], 0) == DASH
  }

  /** Without a clash at its end, a token of the input is the same token in the output. */
  lemma {:induction false} SameToken(mode: Mode, s: Bytes, literals: seq<Bytes>)
    requires s != [] && !AtMarker(mode, s) && Markers(mode, s) == |literals| && LiteralsOk(literals)
    requires !HeadClash(mode, s, literals)
    ensures var out := Filled(mode, s, literals);
            out != [] && TokenLength(mode, out) == TokenLength(mode, s) && NextMode(mode, out) == NextMode(mode, s)
            && !AtMarker(mode, out)
  {
    var n, next := TokenLength(mode, s), NextMode(mode, s);
    var rest := Filled(next, s[n..], literals);
    FilledHead(mode, s, literals);
    FilledHead(next, s[n..], literals);
    var out := s[..n] + rest;
    if n == 1 {
      assert Peek(out, 1) == Peek(rest, 0) && Peek(s, 1) == Peek(s[1..], 0);
      if AtMarker(next, s[1..]) {
        assert LiteralOk(literals[0]);
      }
    }
  }

  /** A minus sign that lands before a literal's own turns the rest of the line into a comment. */
  lemma {:induction false} ClashChangesModes(mode: Mode, s: Bytes, literals: seq<Bytes>)
    requires Markers(mode, s) == |literals| && LiteralsOk(literals) && HeadClash(mode, s, literals)
    ensures Modes(mode, Filled(mode, s, literals)) != IntendedModes(mode, s, literals)
  {
    var out := Filled(mode, s, literals);
    FilledHead(mode, s, literals);
    FilledHead(Normal, s[1..], literals);
    assert LiteralOk(literals[0]);
    FirstMode(Normal, literals[0]);
    DashesOpenComment(out);
    assert Repeat(mode, 1) == [Normal];
    assert IntendedModes(mode, s, literals) == [Normal] + IntendedModes(Normal, s[1..], literals);
    assert IntendedModes(Normal, s[1..], literals)
           == Modes(Normal, literals[0]) + IntendedModes(Normal, s[1..][1..], literals[1..]);
  }

  lemma {:induction false} FirstMode(mode: Mode, s: Bytes)
    requires s != []
    ensures Modes(mode, s)[0] == mode
  {
  }

  lemma {:induction false} DashesOpenComment(s: Bytes)
    requires |s| > 1 && s[0] == s[1] == DASH
    ensures Modes(Normal, s)[1] == InLine
  {
    OneByte(Normal, s, InLine);
    FirstMode(InLine, s[1..]);
  }

  /**
   Every byte of the output is taken in the mode it was meant for, if and only if no literal's minus sign lands
   directly after a minus sign. Then the output has no marker left.
   */
  lemma {:induction false} ModesPreserved(mode: Mode, s: Bytes, literals: seq<Bytes>)
    requires Markers(mode, s) == |literals| && LiteralsOk(literals)
    ensures NoDashClash(Pieces(mode, s), literals)
            <==> Modes(mode, Filled(mode, s, literals)) == IntendedModes(mode, s, literals)
    ensures NoDashClash(Pieces(mode, s), literals) ==> Markers(mode, Filled(mode, s, literals)) == 0
    decreases |s|
  {
    hide Modes, IntendedModes, Pieces, Markers, NoDashClash, Closed;
    FilledHead(mode, s, literals);
    if s == [] {
      NothingFilled(mode, literals);
    } else if AtMarker(mode, s) {
      MarkerStep(s, literals);
      ModesPreserved(Normal, s[1..], literals[1..]);
      SameFront(Modes(Normal, literals[0]), Modes(Normal, Filled(Normal, s[1..], literals[1..])),
                IntendedModes(Normal, s[1..], literals[1..]));
    } else {
      var n, next := TokenLength(mode, s), NextMode(mode, s);
      MarkersStep(mode, s);
      if HeadClash(mode, s, literals) {
        ClashChangesModes(mode, s, literals);
        TokenClash(mode, s, literals);
      } else {
        TokenStep(mode, s, literals);
        ModesPreserved(next, s[n..], literals);
        SameFront(Repeat(mode, n), Modes(next, Filled(next, s[n..], literals)), IntendedModes(next, s[n..], literals));
      }
    }
  }

  lemma {:induction false} MarkersStep(mode: Mode, s: Bytes)
    requires s != [] && !AtMarker(mode, s)
    ensures Markers(mode, s) == Markers(NextMode(mode, s), s[TokenLength(mode, s)..])
    ensures AtMarker(NextMode(mode, s), s[TokenLength(mode, s)..]) ==> Markers(mode, s) > 0
  {
  }

  lemma SameFront<T>(front: seq<T>, a: seq<T>, b: seq<T>)
    ensures front + a == front + b <==> a == b
  {
    assert (front + a)[|front|..] == a && (front + b)[|front|..] == b;
  }

  lemma {:induction false} NothingFilled(mode: Mode, literals: seq<Bytes>)
    requires Markers(mode, []) == |literals|
    ensures Filled(mode, [], literals) == [] && NoDashClash(Pieces(mode, []), literals)
    ensures Modes(mode, []) == IntendedModes(mode, [], literals)
  {
  }

  lemma {:induction false} MarkerStep(s: Bytes, literals: seq<Bytes>)
    requires AtMarker(Normal, s) && Markers(Normal, s) == |literals| && LiteralsOk(literals)
    ensures Markers(Normal, s[1..]) == |literals| - 1 && LiteralsOk(literals[1..])
    ensures IntendedModes(Normal, s, literals)
            == Modes(Normal, literals[0]) + IntendedModes(Normal, s[1..], literals[1..])
    ensures var rest := Filled(Normal, s[1..], literals[1..]);
            Modes(Normal, Filled(Normal, s, literals)) == Modes(Normal, literals[0]) + Modes(Normal, rest)
            && Markers(Normal, Filled(Normal, s, literals)) == Markers(Normal, rest)
    ensures NoDashClash(Pieces(Normal, s), literals) <==> NoDashClash(Pieces(Normal, s[1..]), literals[1..])
  {
    assert LiteralOk(literals[0]);
    FilledHead(Normal, s, literals);
    ScanClosed(false, literals[0], Filled(Normal, s[1..], literals[1..]));
    MarkerClash(Pieces(Normal, s[1..]), literals);
    assert Pieces(Normal, s) == [[]] + Pieces(Normal, s[1..]);
  }

  lemma MarkerClash(rest: seq<Bytes>, literals: seq<Bytes>)
    requires |rest| == |literals| > 0
    ensures NoDashClash([[]] + rest, literals) <==> NoDashClash(rest, literals[1..])
  {
    var pieces := [[]] + rest;
    assert forall k | 0 <= k < |rest| :: pieces[k + 1] == rest[k];
    if NoDashClash(pieces, literals) {
      forall k | 0 <= k < |literals[1..]| && rest[k] != [] && rest[k][|rest[k]| - 1] == DASH && literals[1..][k] != []
        ensures literals[1..][k][0] != DASH
      {
        assert pieces[k + 1] == rest[k] && literals[k + 1] == literals[1..][k];
      }
    }
  }

  lemma {:induction false} TokenStep(mode: Mode, s: Bytes, literals: seq<Bytes>)
    requires s != [] && !AtMarker(mode, s) && Markers(mode, s) == |literals| && LiteralsOk(literals)
    requires !HeadClash(mode, s, literals)
    ensures var n, next := TokenLength(mode, s), NextMode(mode, s);
            var out, rest := Filled(mode, s, literals), Filled(next, s[n..], literals);
            Markers(next, s[n..]) == |literals|
            && Modes(mode, out) == Repeat(mode, n) + Modes(next, rest) && Markers(mode, out) == Markers(next, rest)
            && IntendedModes(mode, s, literals) == Repeat(mode, n) + IntendedModes(next, s[n..], literals)
            && (NoDashClash(Pieces(mode, s), literals) <==> NoDashClash(Pieces(next, s[n..]), literals))
  {
    SameToken(mode, s, literals);
    FilledHead(mode, s, literals);
    var n := TokenLength(mode, s);
    var out, rest := Filled(mode, s, literals), Filled(NextMode(mode, s), s[n..], literals);
    assert out[n..] == rest;
    TokenClash(mode, s, literals);
  }

  /** A clash right after a token, or a later one. */
  lemma {:induction false} TokenClash(mode: Mode, s: Bytes, literals: seq<Bytes>)
    requires s != [] && !AtMarker(mode, s) && Markers(mode, s) == |literals| && LiteralsOk(literals)
    ensures var n, next := TokenLength(mode, s), NextMode(mode, s);
            NoDashClash(Pieces(mode, s), literals)
            <==> NoDashClash(Pieces(next, s[n..]), literals)
                 && !HeadClash(mode, s, literals)
  {
    var n, next := TokenLength(mode, s), NextMode(mode, s);
    var rest := Pieces(next, s[n..]);
    DashClashHead(s[..n], rest, literals);
    FilledHead(next, s[n..], literals);
    assert s[..n][|s[..n]| - 1] == s[n - 1];
    if literals != [] {
      assert LiteralOk(literals[0]);
    }
  }

  /** Substituting again, now with no values, succeeds and returns the output unchanged. */
  lemma {:induction false} RescanUnchanged(sql: Bytes, literals: seq<Bytes>)
    requires Markers(Normal, sql) == |literals| && LiteralsOk(literals)
    requires NoDashClash(Pieces(Normal, sql), literals)
    ensures var out := Filled(Normal, sql, literals);
            Substitute(Normal, sql, literals) == Text(out) && Substitute(Normal, out, []) == Text(out)
  {
    var out := Filled(Normal, sql, literals);
    SubstituteIs(Normal, sql, literals);
    ModesPreserved(Normal, sql, literals);
    SubstituteIs(Normal, out, []);
    PiecesJoin(Normal, out);
    assert seq(0, _ => [MARKER]) == [];
  }

  /** `1-?` with the literal `-1` becomes `1--1`, whose end is a comment and not the number it was meant to be. */
  lemma DashesClash()
    ensures var sql, literals := [0x31, DASH, MARKER], [[DASH, 0x31]];
            Markers(Normal, sql) == 1 && LiteralsOk(literals)
            && Substitute(Normal, sql, literals) == Text([0x31, DASH, DASH, 0x31])
            && IntendedModes(Normal, sql, literals) == [Normal, Normal, Normal, Normal]
            && Modes(Normal, [0x31, DASH, DASH, 0x31]) == [Normal, Normal, InLine, InLine]
  {
    hide Modes;
    var sql, literals := [0x31, DASH, MARKER], [[DASH, 0x31]];
    assert sql[1..] == [DASH, MARKER] && [DASH, MARKER][1..] == [MARKER] && [MARKER][1..] == [];
    MinusOne();
    assert IntendedModes(Normal, [MARKER], literals) == [Normal, Normal];
    assert IntendedModes(Normal, [DASH, MARKER], literals) == [Normal, Normal, Normal];
    assert Substitute(Normal, [MARKER], literals) == Text([DASH, 0x31] + []);
    assert Substitute(Normal, [DASH, MARKER], literals) == Text([DASH] + [DASH, 0x31]);
  }

  /** The literal `-1` by itself is a number; after `1-` it opens a comment. */
  lemma MinusOne()
    ensures LiteralOk([DASH, 0x31]) && Modes(Normal, [DASH, 0x31]) == [Normal, Normal]
    ensures Modes(Normal, [0x31, DASH, DASH, 0x31]) == [Normal, Normal, InLine, InLine]
  {
    assert [0x31, DASH, DASH, 0x31][1..] == [DASH, DASH, 0x31] && [DASH, DASH, 0x31][1..] == [DASH, 0x31];
    assert [DASH, 0x31][1..] == [0x31] && [0x31][1..] == [];
    assert Modes(InLine, [DASH, 0x31]) == [InLine, InLine];
    assert Modes(Normal, [DASH, DASH, 0x31]) == [Normal, InLine, InLine];
  }

  /** After a clash a marker inside a string can come to light: the output cannot be scanned again. */
  lemma ClashExposesMarker()
    ensures var text := [QUOTE, NEWLINE, MARKER, QUOTE];
            Markers(Normal, [DASH, MARKER] + text) == 1 && LiteralsOk([[DASH, 0x31]])
            && Substitute(Normal, [DASH, MARKER] + text, [[DASH, 0x31]]) == Text([DASH, DASH, 0x31] + text)
            && Substitute(Normal, [DASH, DASH, 0x31] + text, []) == MoreMarkers
  {
    hide Substitute, Markers, LiteralOk;
    var text := [QUOTE, NEWLINE, MARKER, QUOTE];
    MinusOne();
    HiddenMarker();
    assert [DASH, MARKER] + text == [DASH] + ([MARKER] + text);
    OneByteTaken(Normal, DASH, [MARKER] + text, [[DASH, 0x31]]);
    MarkerTaken(text, [[DASH, 0x31]]);
    assert [[DASH, 0x31]][1..] == [];
    assert [DASH] + ([DASH, 0x31] + text) == [DASH, DASH, 0x31] + text;
    SubstituteIs(Normal, [DASH, MARKER] + text, [[DASH, 0x31]]);
    assert [DASH, DASH, 0x31] + text == [DASH] + ([DASH] + ([0x31] + text));
    OneByteTaken(Normal, DASH, [DASH] + ([0x31] + text), []);
    OneByteTaken(InLine, DASH, [0x31] + text, []);
    OneByteTaken(InLine, 0x31, text, []);
  }

  /** A string with a line end and a marker in it: whole by itself, cut in two behind a comment that began before it. */
  lemma HiddenMarker()
    ensures var text := [QUOTE, NEWLINE, MARKER, QUOTE];
            Substitute(Normal, text, []) == Text(text) && Substitute(InLine, text, []) == MoreMarkers
  {
    hide Substitute;
    var text := [QUOTE, NEWLINE, MARKER, QUOTE];
    assert text == [QUOTE] + ([NEWLINE] + ([MARKER] + ([QUOTE] + [])));
    NothingTaken();
    OneByteTaken(InString, QUOTE, [], []);
    OneByteTaken(InString, MARKER, [QUOTE] + [], []);
    OneByteTaken(InString, NEWLINE, [MARKER] + ([QUOTE] + []), []);
    OneByteTaken(Normal, QUOTE, [NEWLINE] + ([MARKER] + ([QUOTE] + [])), []);
    OneByteTaken(InLine, QUOTE, [NEWLINE] + ([MARKER] + ([QUOTE] + [])), []);
    OneByteTaken(InLine, NEWLINE, [MARKER] + ([QUOTE] + []), []);
    MarkerTaken([QUOTE] + [], []);
  }

  lemma {:induction false} OneByteTaken(mode: Mode, c: Byte, rest: Bytes, literals: seq<Bytes>)
    requires TokenLength(mode, [c] + rest) == 1 && !AtMarker(mode, [c] + rest)
    ensures Substitute(mode, [c] + rest, literals)
            == Substitute(NextMode(mode, [c] + rest), rest, literals).Prepend([c])
  {
    assert ([c] + rest)[..1] == [c] && ([c] + rest)[1..] == rest;
  }

  lemma {:induction false} MarkerTaken(rest: Bytes, literals: seq<Bytes>)
    ensures Substitute(Normal, [MARKER] + rest, literals)
            == if literals == [] then MoreMarkers else Substitute(Normal, rest, literals[1..]).Prepend(literals[0])
  {
    assert ([MARKER] + rest)[1..] == rest;
  }

  lemma NothingTaken()
    ensures Substitute(Normal, [], []) == Text([])
  {
  }
}
