/** What the message rows say about the frames they come from, in terms of payload bits and plain counts. */
module MessageLaws {
  import opened Common
  import opened Bits
  import opened Counting
  import opened Frames
  import opened Geometry
  import opened Grouping
  import opened Messages

  /* ---- the grouping value ------------------------------------------------------------- */

  /** The field lies inside the payload, counted linearly from its start bit. */
  predicate Carries(f: Frame, field: Signal) {
    field.bitStart + field.bitLength <= 8 * |f.data|
  }

  /** The frame belongs to the row of `v`: it carries `v` in the field, or is too short and `v` is -1. */
  predicate BelongsTo(f: Frame, field: Signal, v: int) {
    if Carries(f, field) then Meaning(f.data, field) == v else v == -1
  }

  /** How many frames belong to the row of `v`. */
  ghost function Belonging(fs: seq<Frame>, field: Signal, v: int): nat {
    HowMany(fs, (f: Frame) => BelongsTo(f, field, v))
  }

  lemma ValueIs(f: Frame, field: Signal, v: int)
    ensures FieldValueOf(field)(f) == v <==> BelongsTo(f, field, v)
  {
  }

  lemma BelongingIsOccurrences(fs: seq<Frame>, field: Signal, v: int)
    ensures Occurrences(fs, FieldValueOf(field), v) == Belonging(fs, field, v)
  {
    forall k | 0 <= k < |fs| ensures FieldValueOf(field)(fs[k]) == v <==> BelongsTo(fs[k], field, v) {
      ValueIs(fs[k], field, v);
    }
    var p := (f: Frame) => BelongsTo(f, field, v);
    assert (set k | 0 <= k < |fs| && FieldValueOf(field)(fs[k]) == v) == Places(fs, p);
  }

  /** Every frame is counted in one row, that of its value. */
  lemma EveryFrameCounted(fs: seq<Frame>, field: Signal, rule: RateRule, k: nat, v: int) returns (i: nat)
    requires k < |fs| && BelongsTo(fs[k], field, v)
    ensures var rows := RowsOf(fs, Some(field), rule);
      i < |rows| && rows[i].mux == Some(v) && rows[i].count == Belonging(fs, field, v)
  {
    ValueIs(fs[k], field, v);
    RowsCoverValues(fs, field, rule);
    assert fs[k] in fs;
    i :| 0 <= i < |RowsOf(fs, Some(field), rule)| && RowsOf(fs, Some(field), rule)[i].mux == Some(v);
    RowMeaning(fs, field, rule, i);
    BelongingIsOccurrences(fs, field, v);
  }

  /** A value packed into the field's clear bits is the value its frame is counted under, as far as the
      field can hold it. */
  lemma PackedIsCounted(fs: seq<Frame>, field: Signal, rule: RateRule, k: nat, buf: seq<byte>, v: int) returns (i: nat)
    requires k < |fs| && fs[k].data == Geometry.Packed(buf, field, v) && Carries(fs[k], field)
    requires forall b :: b in BitOrder(field) ==> b / 8 < |buf| && GetBit(buf, b) == 0
    ensures var rows, value := RowsOf(fs, Some(field), rule), Wrapped(v, field);
      i < |rows| && rows[i].mux == Some(value) && rows[i].count == Belonging(fs, field, value)
  {
    forall n | 0 <= n < field.bitLength
      ensures BitOrder(field)[n] / 8 < |buf| && GetBit(buf, BitOrder(field)[n]) == 0
    {
      assert BitOrder(field)[n] in BitOrder(field);
    }
    PackThenExtract(buf, field, v);
    i := EveryFrameCounted(fs, field, rule, k, Wrapped(v, field));
  }

  /** A frame too short for the field is counted under -1. */
  lemma ShortIsCounted(fs: seq<Frame>, field: Signal, rule: RateRule, k: nat) returns (i: nat)
    requires k < |fs| && field.bitStart + field.bitLength > 8 * |fs[k].data|
    ensures var rows := RowsOf(fs, Some(field), rule);
      i < |rows| && rows[i].mux == Some(-1) && rows[i].count == Belonging(fs, field, -1)
  {
    i := EveryFrameCounted(fs, field, rule, k, -1);
  }

  /* ---- the columns that describe the field ------------------------------------------------- */

  /** The bytes of a field are those that hold a bit counted on from its start bit, ascending. */
  lemma FieldBytesHoldBits(field: Signal)
    requires field.bitLength > 0
    ensures StrictlySorted(FieldBytes(field))
    ensures forall b: nat :: b in FieldBytes(field) <==>
              exists p :: field.bitStart <= p < field.bitStart + field.bitLength && p / 8 == b
  {
    var bs, last := FieldBytes(field), field.bitStart + field.bitLength - 1;
    forall b: nat ensures b in bs <==> exists p :: field.bitStart <= p <= last && p / 8 == b {
      if field.bitStart / 8 <= b <= last / 8 {
        assert bs[b - field.bitStart / 8] == b;
        var p := if b == field.bitStart / 8 then field.bitStart else 8 * b;
        assert field.bitStart <= p <= last && p / 8 == b;
      }
    }
  }

  /** The shown width is the smallest number of hexadecimal digits, one at least, for every value. */
  lemma HexWidthIsLeast(field: Signal)
    ensures var w := FieldHexWidth(field);
      && w >= 1 && Pow2(field.bitLength) <= Pow2(4 * w)
      && forall u :: 1 <= u < w ==> Pow2(4 * u) < Pow2(field.bitLength)
  {
    var w := FieldHexWidth(field);
    Pow2Monotone(field.bitLength, 4 * w);
    forall u | 1 <= u < w ensures Pow2(4 * u) < Pow2(field.bitLength) {
      Pow2Monotone(4 * u + 1, field.bitLength);
    }
  }

  /** Every row of a field shows its bytes and width. */
  lemma RowsShowField(fs: seq<Frame>, field: Signal, rule: RateRule, i: nat)
    requires i < |RowsOf(fs, Some(field), rule)|
    ensures var row := RowsOf(fs, Some(field), rule)[i];
      row.idBytes == Some(FieldBytes(field)) && row.idHexWidth == FieldHexWidth(field)
  {
  }

  /** Without a field there is one row: every frame counted, the newest shown. */
  lemma OneRowWithoutField(fs: seq<Frame>, rule: RateRule)
    ensures var rows := RowsOf(fs, None, rule);
      && (fs == [] ==> rows == [])
      && (fs != [] ==>
            var last := fs[|fs| - 1];
            |rows| == 1 && rows[0] == Row(None, last.data, last.dlc, rows[0].rate, last.tUs, |fs|, None, 0))
  {
  }

  /* ---- the rate column ---------------------------------------------------------------------- */

  /** How many frames of a row's value came at `low` or later. */
  ghost function Recent(fs: seq<Frame>, field: Signal, v: int, low: real): nat {
    HowMany(fs, (f: Frame) => BelongsTo(f, field, v) && f.tUs as real >= low)
  }

  lemma {:induction false} CountSinceIs(fs: seq<Frame>, valueOf: Frame -> int, v: int, low: real, p: Frame -> bool)
    requires forall f :: p(f) <==> valueOf(f) == v && f.tUs as real >= low
    ensures CountSince(Group(fs, valueOf, v), low) == HowMany(fs, p)
  {
    if fs == [] {
      HowManyNone(fs, p);
    } else {
      var n := |fs| - 1;
      CountSinceIs(fs[..n], valueOf, v, low, p);
      CountSinceSnoc(Group(fs[..n], valueOf, v), fs[n], low);
      HowManySnoc(fs[..n], fs[n], p);
      assert fs == fs[..n] + [fs[n]];
    }
  }

  lemma RecentIs(fs: seq<Frame>, field: Signal, v: int, low: real)
    ensures CountSince(Group(fs, FieldValueOf(field), v), low) == Recent(fs, field, v, low)
  {
    forall f: Frame ensures FieldValueOf(field)(f) == v <==> BelongsTo(f, field, v) {
      ValueIs(f, field, v);
    }
    CountSinceIs(fs, FieldValueOf(field), v, low, (f: Frame) => BelongsTo(f, field, v) && f.tUs as real >= low);
  }

  /** The rate of a row over a window is the number of its frames in the window, per second. */
  lemma WindowedRate(fs: seq<Frame>, field: Signal, low: real, seconds: real, i: nat)
    requires i < |RowsOf(fs, Some(field), Exact(low, seconds))| && seconds != 0.0
    ensures var row := RowsOf(fs, Some(field), Exact(low, seconds))[i];
      row.mux.Some? && row.rate == Recent(fs, field, row.mux.value, low) as real / seconds
  {
    var v := SortedValues(fs, FieldValueOf(field))[i];
    assert RowsOf(fs, Some(field), Exact(low, seconds))[i]
        == ValueRow(fs, FieldValueOf(field), v, Exact(low, seconds), FieldBytes(field), FieldHexWidth(field));
    RecentIs(fs, field, v, low);
  }

  /** The same without a field. */
  lemma WholeWindowedRate(fs: seq<Frame>, low: real, seconds: real)
    requires fs != [] && seconds != 0.0
    ensures RowsOf(fs, None, Exact(low, seconds))[0].rate
            == HowMany(fs, (f: Frame) => f.tUs as real >= low) as real / seconds
  {
    GroupOfAll(fs, Same);
    CountSinceIs(fs, Same, 0, low, (f: Frame) => f.tUs as real >= low);
  }

  const Same: Frame -> int := f => 0

  lemma {:induction false} GroupOfAll(fs: seq<Frame>, valueOf: Frame -> int)
    requires forall f :: valueOf(f) == 0
    ensures Group(fs, valueOf, 0) == fs
  {
    if fs != [] {
      GroupOfAll(fs[..|fs| - 1], valueOf);
    }
  }
}
