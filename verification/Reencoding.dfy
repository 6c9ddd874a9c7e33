/** A flat column from the wire, decoded and written again: exactly when the bytes stay the same. */
module Reencoding {
  import opened Numbers
  import opened Wire
  import opened QuackTypes
  import opened Validity
  import opened TypeCodec
  import opened TypeRoundTrip
  import opened Vectors
  import opened RawRoundTrip
  import opened VectorEncoder
  import opened VectorDecoder
  import opened ChunkRoundTrip
  import opened VectorLayouts
  import opened LayoutMeaning

  function NullRows(validity: Validity, count: nat): (nulls: seq<bool>)
    requires MaskFits(validity, count)
  {
    seq(count, i requires 0 <= i < count => !IsValid(validity, i))
  }

  /**
   What the encoder itself would send: nothing but zero or an empty text under a null row, numbers that writing produces
   elsewhere, no format number, and for an object column a bitmap only when some row is null.
   */
  predicate Plain(t: LogicalType, count: nat, l: Layout)
    requires (l.FixedLayout? || l.TextLayout?) && Legal(t, count, l)
  {
    match l
    case FixedLayout(validity, raws) =>
      (forall i | 0 <= i < count :: if IsValid(validity, i) then Holdable(t, raws[i]) else raws[i] == 0)
      && (!Primitive(t) ==> validity == FromNulls(NullRows(validity, count)))
    case TextLayout(format, validity, texts) =>
      (forall i | 0 <= i < count :: !IsValid(validity, i) ==> texts[i] == [])
      && format == None && validity == FromNulls(NullRows(validity, count))
  }

  /** Bytes that were read are written again exactly when they are plain; of an ENUM only one direction is claimed. */
  lemma {:induction false} FlatReencodes(t: LogicalType, count: nat, l: Layout, tail: Bytes)
    requires (l.FixedLayout? || l.TextLayout?) && Legal(t, count, l)
    ensures ReadBody(t, count, Body(t, count, l, tail)) == Ok(Some(Decoded(t, count, l)), tail)
    ensures var vec := Decoded(t, count, l);
            var same := Encodable(t, vec) && FlatBody(t, vec, tail) == Body(t, count, l, tail);
            (Plain(t, count, l) ==> same) && (t.id != ENUM && same ==> Plain(t, count, l))
  {
    hide Legal, Body, Plain, Encodable, FlatBody, LeafOf, ReadBody;
    var vec := Decoded(t, count, l);
    FlatDecodes(t, count, l, tail);
    if Plain(t, count, l) {
      PlainIsLeaf(t, count, l);
    }
    if Encodable(t, vec) {
      EncoderWritesLeaf(t, vec, tail);
      if FlatBody(t, vec, tail) == Body(t, count, l, tail) && t.id != ENUM {
        LeafVariant(t, vec, count, l);
        LeafInjective(t, count, LeafOf(t, vec), l, tail);
        LeafIsPlain(t, count, l);
      }
    }
  }

  lemma {:induction false} LeafVariant(t: LogicalType, vec: Vec, count: nat, l: Layout)
    requires (l.FixedLayout? || l.TextLayout?) && Legal(t, count, l) && Encodable(t, vec)
    ensures LeafOf(t, vec).FixedLayout? <==> l.FixedLayout?
    ensures LeafOf(t, vec).FixedLayout? || LeafOf(t, vec).TextLayout?
  {
  }

  /** Flat layouts of one kind are told apart by their bytes. */
  lemma {:induction false} LeafInjective(t: LogicalType, count: nat, a: Layout, b: Layout, tail: Bytes)
    requires (a.FixedLayout? && b.FixedLayout?) || (a.TextLayout? && b.TextLayout?)
    requires Legal(t, count, a) && Legal(t, count, b) && Body(t, count, a, tail) == Body(t, count, b, tail)
    ensures a == b
  {
    hide FlatHeader, ReadFlatHeader, ReadVectorType, Raws, Texts, Formatted;
    match a {
      case FixedLayout(validity, raws) =>
        var width := Physical(t).ByteWidth();
        FormattedHeader(t, None, validity, count, Field(102, Blob(Raws(width, raws, []), tail)));
        FormattedHeader(t, None, b.validity, count, Field(102, Blob(Raws(width, b.raws, []), tail)));
        SameRaws(t, raws, b.raws, tail);
      case TextLayout(format, validity, texts) =>
        FormattedHeader(t, format, validity, count, Field(102, Int(count, Texts(texts, tail))));
        FormattedHeader(t, b.format, b.validity, count, Field(102, Int(count, Texts(b.texts, tail))));
        RequiredIntRoundTrip(102, count, Texts(texts, tail));
        RequiredIntRoundTrip(102, count, Texts(b.texts, tail));
        TextsRoundTrip(texts, tail);
        TextsRoundTrip(b.texts, tail);
        SameFormat(t, a, b, count, tail);
    }
  }

  lemma {:induction false} SameRaws(t: LogicalType, a: seq<nat>, b: seq<nat>, tail: Bytes)
    requires Physical(t).ConstantSize() && RawsLegal(Physical(t), a) && RawsLegal(Physical(t), b)
    requires |a| == |b| && 16 * |a| <= MAX_INT
    requires Field(102, Blob(Raws(Physical(t).ByteWidth(), a, []), tail))
             == Field(102, Blob(Raws(Physical(t).ByteWidth(), b, []), tail))
    ensures a == b
  {
    hide Pow256;
    var width := Physical(t).ByteWidth();
    var x, y := Raws(width, a, []), Raws(width, b, []);
    RawsRoundTrip(width, a);
    RawsRoundTrip(width, b);
    MulRange(|a|, width, 16);
    RequireField(102, Blob(x, tail));
    RequireField(102, Blob(y, tail));
    BlobRoundTrip(x, tail);
    BlobRoundTrip(y, tail);
    assert x == y;
    forall i | 0 <= i < |a| ensures a[i] == b[i] {
      ModUnique(a[i], Pow256(width), 0, a[i]);
      ModUnique(b[i], Pow256(width), 0, b[i]);
      assert RawsOf(width, |a|, x)[i] == a[i] % Pow256(width);
      assert RawsOf(width, |b|, y)[i] == b[i] % Pow256(width);
    }
  }

  lemma {:induction false} SameFormat(t: LogicalType, a: Layout, b: Layout, count: nat, tail: Bytes)
    requires a.TextLayout? && b.TextLayout? && Legal(t, count, a) && Legal(t, count, b)
    requires Body(t, count, a, tail) == Body(t, count, b, tail)
    ensures a.format == b.format
  {
    FormatFirst(t, count, a, tail);
    FormatFirst(t, count, b, tail);
  }

  /** The first field of a flat column shows the format number, or that there is none. */
  lemma {:induction false} FormatFirst(t: LogicalType, count: nat, l: Layout, tail: Bytes)
    requires l.TextLayout? && Legal(t, count, l)
    ensures Optional(99, Body(t, count, l, tail)).Ok?
    ensures var first := Optional(99, Body(t, count, l, tail));
            first.value == l.format.Some?
            && (l.format.Some? ==> ReadUlebInt(first.rest).Ok? && ReadUlebInt(first.rest).value == l.format.value)
  {
    hide ReadUlebInt, Int, Texts;
    var data := Field(102, Int(count, Texts(l.texts, tail)));
    if l.format.Some? {
      var header := FlatHeader(l.validity, count, data);
      OptionalField(99, 99, Int(l.format.value, header));
      IntRoundTrip(l.format.value, header);
    } else {
      OptionalField(99, 100, Bool(l.validity.Some?, if l.validity.Some?
        then Field(101, Blob(ToBytes(l.validity, count), data)) else data));
    }
  }

  // ---- the leaf that the encoder makes of a decoded column ----

  /** What is written for the row that was read. */
  lemma LeafRow(t: LogicalType, validity: Validity, raws: seq<nat>, i: nat)
    requires Physical(t).ConstantSize() && RawsLegal(Physical(t), raws) && MaskFits(validity, |raws|) && i < |raws|
    ensures var p, c := Physical(t), FixedRows(t, validity, raws)[i];
            var same := Writable(t, p, c) && ToRaw(t, p, c) % Pow256(p.ByteWidth()) == raws[i];
            if IsValid(validity, i)
            then (Holdable(t, raws[i]) ==> same) && (t.id != ENUM && same ==> Holdable(t, raws[i]))
            else Writable(t, p, c) && (same <==> raws[i] == 0)
  {
    hide Holdable, Pow256;
    if IsValid(validity, i) {
      hide CellFromRaw, ToRaw, Writable;
      RawSurvives(t, raws[i]);
    } else {
      NilIsZero(t);
      ModUnique(0, Pow256(Physical(t).ByteWidth()), 0, 0);
    }
  }

  lemma NilIsZero(t: LogicalType)
    requires Physical(t).ConstantSize()
    ensures Writable(t, Physical(t), None) && ToRaw(t, Physical(t), None) == 0
  {
  }

  lemma DecodedValidity(t: LogicalType, validity: Validity, raws: seq<nat>)
    requires Physical(t).ConstantSize() && MaskFits(validity, |raws|)
    ensures ExtractValidity(DecodeFixed(t, Physical(t), raws, validity))
            == if Primitive(t) then validity else FromNulls(NullRows(validity, |raws|))
  {
    var vec := DecodeFixed(t, Physical(t), raws, validity);
    if !Primitive(t) {
      forall i | 0 <= i < |raws| ensures vec.cells[i].None? == !IsValid(validity, i) {
        if IsValid(validity, i) {
          ReadIsSome(t, raws[i]);
        }
      }
      assert seq(|vec.cells|, i requires 0 <= i < |vec.cells| => vec.cells[i].None?) == NullRows(validity, |raws|);
    }
  }

  lemma TextValidity(t: LogicalType, validity: Validity, texts: seq<Text>)
    requires MaskFits(validity, |texts|)
    ensures StringsInRange(validity, texts)
    ensures ExtractValidity(Obj(t, StringRows(t, validity, texts))) == FromNulls(NullRows(validity, |texts|))
  {
    var cells := StringRows(t, validity, texts);
    assert seq(|cells|, i requires 0 <= i < |cells| => cells[i].None?) == NullRows(validity, |texts|);
  }

  lemma {:induction false} PlainIsLeaf(t: LogicalType, count: nat, l: Layout)
    requires (l.FixedLayout? || l.TextLayout?) && Legal(t, count, l) && Plain(t, count, l)
    ensures Encodable(t, Decoded(t, count, l)) && LeafOf(t, Decoded(t, count, l)) == l
  {
    hide DecodeFixed, Writable, ToRaw, CellFromRaw, Holdable, Pow256, ExtractValidity, FromNulls, IsValid;
    var vec := Decoded(t, count, l);
    match l {
      case FixedLayout(validity, raws) =>
        FixedRowsMean(t, raws, validity);
        DecodedValidity(t, validity, raws);
        PlainRows(t, validity, raws);
      case TextLayout(_, validity, texts) =>
        TextValidity(t, validity, texts);
        TextRows(t, validity, texts);
        assert RowTexts(t, vec.Rows()) == texts;
    }
  }

  lemma PlainRows(t: LogicalType, validity: Validity, raws: seq<nat>)
    requires Physical(t).ConstantSize() && RawsLegal(Physical(t), raws) && MaskFits(validity, |raws|)
    requires forall i | 0 <= i < |raws| :: if IsValid(validity, i) then Holdable(t, raws[i]) else raws[i] == 0
    ensures RowsWritable(t, FixedRows(t, validity, raws)) && StoredRaws(t, FixedRows(t, validity, raws)) == raws
  {
    hide FixedRows, Writable, ToRaw, Holdable, Pow256, IsValid;
    var rows := FixedRows(t, validity, raws);
    forall i | 0 <= i < |raws|
      ensures Writable(t, Physical(t), rows[i])
      ensures ToRaw(t, Physical(t), rows[i]) % Pow256(Physical(t).ByteWidth()) == raws[i]
    {
      LeafRow(t, validity, raws, i);
    }
    forall i | 0 <= i < |raws| ensures StoredRaws(t, rows)[i] == raws[i] {
      StoredRaw(t, rows, i);
    }
  }

  /** Texts come back as they are, but nothing of what stands under a null row. */
  lemma TextRows(t: LogicalType, validity: Validity, texts: seq<Text>)
    requires MaskFits(validity, |texts|)
    ensures StringsInRange(validity, texts)
    ensures var rows := Obj(t, StringRows(t, validity, texts)).Rows();
            |rows| == |texts|
            && forall i | 0 <= i < |texts| ::
                 TextWritable(rows[i]) && TextOf(rows[i]) == if IsValid(validity, i) then texts[i] else []
  {
    var vec := Obj(t, StringRows(t, validity, texts));
    assert vec.Rows() == vec.cells;
  }

  lemma {:induction false} LeafIsPlain(t: LogicalType, count: nat, l: Layout)
    requires (l.FixedLayout? || l.TextLayout?) && Legal(t, count, l) && t.id != ENUM
    requires Encodable(t, Decoded(t, count, l)) && LeafOf(t, Decoded(t, count, l)) == l
    ensures Plain(t, count, l)
  {
    hide DecodeFixed, Writable, ToRaw, CellFromRaw, Holdable, Pow256, ExtractValidity, FromNulls;
    var vec := Decoded(t, count, l);
    match l {
      case FixedLayout(validity, raws) =>
        FixedRowsMean(t, raws, validity);
        DecodedValidity(t, validity, raws);
        forall i | 0 <= i < count
          ensures if IsValid(validity, i) then Holdable(t, raws[i]) else raws[i] == 0
        {
          LeafRow(t, validity, raws, i);
          StoredRaw(t, vec.Rows(), i);
        }
      case TextLayout(_, validity, texts) =>
        TextValidity(t, validity, texts);
        TextRows(t, validity, texts);
        assert RowTexts(t, vec.Rows()) == texts;
    }
  }
}
