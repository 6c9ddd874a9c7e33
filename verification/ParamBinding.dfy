/** The substitution scan and the padding of decimals, as the loops that the driver runs. */
module ParamBinding {
  import opened Numbers
  import opened Params
  import opened Literals

  function Rendered(values: seq<Scalar>): (literals: seq<Bytes>)
    ensures |literals| == |values|
  {
    seq(|values|, i requires 0 <= i < |values| => RenderLiteral(values[i]))
  }

  /** The four mode flags of the scan as one mode. */
  function ModeOf(lineComment: bool, blockComment: bool, inString: bool, inIdent: bool): Mode {
    if lineComment then InLine
    else if blockComment then InBlock
    else if inString then InString
    else if inIdent then InIdent
    else Normal
  }

  /** What remains to be scanned gives the rest of the outcome. */
  lemma {:induction false} SubstituteStep(out: Bytes, mode: Mode, s: Bytes, i: nat, literals: seq<Bytes>)
    requires i < |s| && !AtMarker(mode, s[i..])
    ensures var n := TokenLength(mode, s[i..]);
            Substitute(mode, s[i..], literals).Prepend(out)
            == Substitute(NextMode(mode, s[i..]), s[i + n..], literals).Prepend(out + s[i..i + n])
  {
    var n := TokenLength(mode, s[i..]);
    assert s[i..][n..] == s[i + n..] && s[i..][..n] == s[i..i + n];
    PrependTwice(out, s[i..i + n], Substitute(NextMode(mode, s[i..]), s[i + n..], literals));
  }

  lemma SubstituteMarker(out: Bytes, s: Bytes, i: nat, literals: seq<Bytes>, k: nat)
    requires i < |s| && AtMarker(Normal, s[i..]) && k < |literals|
    ensures Substitute(Normal, s[i..], literals[k..]).Prepend(out)
            == Substitute(Normal, s[i + 1..], literals[k + 1..]).Prepend(out + literals[k])
  {
    assert s[i..][1..] == s[i + 1..] && literals[k..][1..] == literals[k + 1..];
    PrependTwice(out, literals[k], Substitute(Normal, s[i + 1..], literals[k + 1..]));
  }

  lemma PrependTwice(a: Bytes, b: Bytes, o: Outcome)
    ensures o.Prepend(b).Prepend(a) == o.Prepend(a + b)
  {
    if o.Text? {
      assert a + (b + o.sql) == a + b + o.sql;
    }
  }

  lemma {:induction false} SubstituteEnds(mode: Mode, s: Bytes, literals: seq<Bytes>)
    ensures s == [] ==> Substitute(mode, s, literals) == if literals == [] then Text([]) else FewerMarkers
    ensures AtMarker(mode, s) && literals == [] ==> Substitute(mode, s, literals) == MoreMarkers
  {
  }

  /** One pass over the text with four flags and one byte of lookahead. */
  method SubstituteParams(sql: Bytes, values: seq<Scalar>) returns (outcome: Outcome)
    ensures outcome == Substitute(Normal, sql, Rendered(values))
  {
    hide Substitute, RenderLiteral;
    var b: Bytes := [];
    var idx := 0;
    var inStr, inIdent, lineComment, blockComment := false, false, false, false;
    var i := 0;
    ghost var literals := Rendered(values);
    assert sql[0..] == sql && literals[0..] == literals;
    while i < |sql|
      invariant 0 <= i <= |sql| && 0 <= idx <= |values|
      invariant Substitute(Normal, sql, literals)
                == Substitute(ModeOf(lineComment, blockComment, inStr, inIdent), sql[i..], literals[idx..]).Prepend(b)
      invariant lineComment ==> !blockComment && !inStr && !inIdent
      invariant blockComment ==> !inStr && !inIdent
      invariant inStr ==> !inIdent
    {
      var c := sql[i];
      ghost var mode := ModeOf(lineComment, blockComment, inStr, inIdent);
      assert sql[i..][0] == c && Peek(sql[i..], 1) == if i + 1 < |sql| then sql[i + 1] else -1;
      if !AtMarker(mode, sql[i..]) {
        SubstituteStep(b, mode, sql, i, literals[idx..]);
        assert sql[i..i + 1] == [c];
        assert TokenLength(mode, sql[i..]) == 2 ==> b + sql[i..i + 2] == b + [c] + [SLASH];
      }
      SubstituteEnds(mode, sql[i..], literals[idx..]);
      if lineComment {
        b := b + [c];
        if c == NEWLINE {
          lineComment := false;
        }
      } else if blockComment {
        b := b + [c];
        if c == STAR && i + 1 < |sql| && sql[i + 1] == SLASH {
          b := b + [SLASH];
          i := i + 1;
          blockComment := false;
        }
      } else if inStr {
        b := b + [c];
        if c == QUOTE {
          inStr := false;
        }
      } else if inIdent {
        b := b + [c];
        if c == IDENT_QUOTE {
          inIdent := false;
        }
      } else if c == QUOTE {
        inStr := true;
        b := b + [c];
      } else if c == IDENT_QUOTE {
        inIdent := true;
        b := b + [c];
      } else if c == DASH && i + 1 < |sql| && sql[i + 1] == DASH {
        lineComment := true;
        b := b + [c];
      } else if c == SLASH && i + 1 < |sql| && sql[i + 1] == STAR {
        blockComment := true;
        b := b + [c];
      } else if c == MARKER {
        if idx >= |values| {
          return MoreMarkers;
        }
        SubstituteMarker(b, sql, i, literals, idx);
        b := b + RenderLiteral(values[idx]);
        idx := idx + 1;
      } else {
        b := b + [c];
      }
      i := i + 1;
    }
    SubstituteEnds(ModeOf(lineComment, blockComment, inStr, inIdent), sql[i..], literals[idx..]);
    if idx != |values| {
      return FewerMarkers;
    }
    assert b + [] == b;
    return Text(b);
  }

  /** Zeros are put in front one at a time until a digit stands before the point. */
  method DecimalLiteral(n: int, scale: int) returns (out: Bytes)
    ensures out == DecimalText(n, scale)
  {
    hide Digits;
    if scale <= 0 {
      return IntegerText(n);
    }
    var s := Digits(if n < 0 then -n else n);
    ghost var digits := s;
    while |s| <= scale
      invariant |digits| <= |s| && (|s| <= scale + 1 || s == digits)
      invariant s == Repeat(ZERO_DIGIT, |s| - |digits|) + digits
      decreases scale - |s|
    {
      s := [ZERO_DIGIT] + s;
    }
    assert s == Padded(digits, scale + 1);
    var i := |s| - scale;
    out := s[..i] + [DOT] + s[i..];
    assert out == WithPoint(s, scale);
    if n < 0 {
      out := [DASH] + out;
    }
  }

  /** The literals of well-formed scalars, put in place of the markers, leave nothing open and nothing to substitute. */
  lemma {:induction false} BoundStatementStable(sql: Bytes, values: seq<Scalar>)
    requires forall i | 0 <= i < |values| :: ScalarOk(values[i])
    requires Markers(Normal, sql) == |values|
    ensures LiteralsOk(Rendered(values))
    ensures NoDashClash(Pieces(Normal, sql), Rendered(values)) ==>
              var out := Filled(Normal, sql, Rendered(values));
              Substitute(Normal, sql, Rendered(values)) == Text(out) && Substitute(Normal, out, []) == Text(out)
  {
    forall i | 0 <= i < |values|
      ensures LiteralOk(Rendered(values)[i])
    {
      LiteralsAreClosed(values[i]);
    }
    if NoDashClash(Pieces(Normal, sql), Rendered(values)) {
      RescanUnchanged(sql, Rendered(values));
    }
  }
}
