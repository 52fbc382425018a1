/** The fixed field layout of the critical region: 23 named, contiguous token
    ranges and the decode rule each one is written with. */
module Layout {
  import opened Frames

  /** How a field's hex text becomes the text written to its sink. */
  datatype DecodeKind =
    | Unsigned           // the base-16 value, in decimal
    | HexPass            // the hex text itself
    | Bin(width: nat)    // the base-16 value in binary, zero-padded to `width`
    | Mask12             // the low 12 bits of the base-16 value, in decimal
    | Signed32           // the base-16 value as 32-bit two's complement, in decimal

  /** A field covers critical tokens [start, end). */
  datatype Field = Field(name: string, start: nat, end: nat, kind: DecodeKind)

  const FieldCount: nat := 23

  /** The descriptor table, in the order the fields are sliced and written
      (cf-nf_data.py lines 74-96 for the ranges, 108-130 for the rules). */
  const Table: seq<Field> := [
    Field("debug_seq_cnt", 0, 2, Unsigned),
    Field("serial_data", 2, 5, HexPass),
    Field("backplane_type", 5, 6, Bin(8)),
    Field("controller_status", 6, 8, Bin(16)),
    Field("seu_count", 8, 9, Unsigned),
    Field("converter_output", 9, 10, Bin(8)),
    Field("converter_input", 10, 12, Bin(16)),
    Field("dim_log_index", 12, 14, Unsigned),
    Field("adc_log_index", 14, 16, Unsigned),
    Field("version", 16, 18, Bin(16)),
    Field("cycle_period", 18, 22, Unsigned),
    Field("dim_a_1_ana_3", 22, 24, Mask12),
    Field("dim_a_1_ana_2", 24, 26, Mask12),
    Field("dim_a_1_ana_1", 26, 28, Mask12),
    Field("dim_a_1_ana_0", 28, 30, Mask12),
    Field("dim_a_trig_unl", 30, 32, Bin(16)),
    Field("dim_a_trig_lat", 32, 34, Bin(16)),
    Field("i_b_10_19", 34, 38, Signed32),
    Field("i_b_0_9", 38, 42, Signed32),
    Field("i_a_10_19", 42, 46, Signed32),
    Field("i_a_0_9", 46, 50, Signed32),
    Field("v_meas_10_19", 50, 54, Signed32),
    Field("v_meas_0_9", 54, 58, Signed32)
  ]

  /** Positions of the four masked analog fields in the table. */
  const Ana0: nat := 14
  const Ana1: nat := 13
  const Ana2: nat := 12
  const Ana3: nat := 11

  /** Critical token `b` belongs to field `f`. */
  predicate InField(f: Field, b: int) {
    f.start <= b < f.end
  }

  /** Offset `b` belongs to some field of `fs`. */
  predicate Covered(fs: seq<Field>, b: int) {
    exists j :: 0 <= j < |fs| && InField(fs[j], b)
  }

  /** `fs` lays non-empty ranges end to end from `lo` to `hi`. */
  predicate Tiles(fs: seq<Field>, lo: nat, hi: nat) {
    && |fs| > 0
    && fs[0].start == lo
    && fs[|fs| - 1].end == hi
    && (forall j :: 0 <= j < |fs| ==> fs[j].start < fs[j].end)
    && (forall j :: 0 <= j < |fs| - 1 ==> fs[j].end == fs[j + 1].start)
  }

  /** The table tiles the critical region exactly: non-empty ranges laid end
      to end from token 0 to token 58. */
  lemma TableTiles()
    ensures |Table| == FieldCount
    ensures Tiles(Table, 0, CriticalTokens)
  {
    TableNonEmpty();
    TableAdjacent();
  }

  lemma TableNonEmpty()
    ensures forall j :: 0 <= j < FieldCount ==> Table[j].start < Table[j].end
  {
  }

  lemma TableAdjacent()
    ensures forall j :: 0 <= j < FieldCount - 1 ==> Table[j].end == Table[j + 1].start
  {
  }

  /** The four analog positions hold the four masked fields, by name. */
  lemma AnalogFields()
    ensures Table[Ana0].kind == Mask12 && Table[Ana0].name == "dim_a_1_ana_0"
    ensures Table[Ana1].kind == Mask12 && Table[Ana1].name == "dim_a_1_ana_1"
    ensures Table[Ana2].kind == Mask12 && Table[Ana2].name == "dim_a_1_ana_2"
    ensures Table[Ana3].kind == Mask12 && Table[Ana3].name == "dim_a_1_ana_3"
  {
  }

  /** Each decode rule matches its field's width: binary fields are 8 bits per
      byte, masked fields two bytes, signed fields four bytes. */
  lemma TableWidths()
    ensures forall j :: 0 <= j < FieldCount && Table[j].kind.Bin? ==>
              Table[j].kind.width == 8 * (Table[j].end - Table[j].start)
    ensures forall j :: 0 <= j < FieldCount && Table[j].kind == Mask12 ==>
              Table[j].end - Table[j].start == 2
    ensures forall j :: 0 <= j < FieldCount && Table[j].kind == Signed32 ==>
              Table[j].end - Table[j].start == 4
    ensures forall j :: 0 <= j < FieldCount && Table[j].kind == HexPass ==>
              Table[j].name == "serial_data" && Table[j].start == 2 && Table[j].end == 5
  {
  }

  /** `serial_data`, at position 1, is the only field copied without parsing. */
  lemma PassthroughIsSerial()
    ensures forall j :: 0 <= j < FieldCount ==> (Table[j].kind == HexPass <==> j == 1)
  {
  }

  /** Every later field starts at or after the end of every earlier one. */
  lemma {:induction false} TilesOrdered(fs: seq<Field>, lo: nat, hi: nat, i: nat, j: nat)
    requires Tiles(fs, lo, hi) && i < j < |fs|
    ensures fs[i].end <= fs[j].start
    decreases j - i
  {
    if j > i + 1 {
      TilesOrdered(fs, lo, hi, i, j - 1);
    }
  }

  /** Distinct fields of a tiling share no offset. */
  lemma TilesDisjoint(fs: seq<Field>, lo: nat, hi: nat)
    requires Tiles(fs, lo, hi)
    ensures forall i, j, b ::
              0 <= i < |fs| && 0 <= j < |fs| && i != j && InField(fs[i], b) ==> !InField(fs[j], b)
  {
    forall i, j, b | 0 <= i < |fs| && 0 <= j < |fs| && i != j && InField(fs[i], b)
      ensures !InField(fs[j], b)
    {
      if i < j { TilesOrdered(fs, lo, hi, i, j); } else { TilesOrdered(fs, lo, hi, j, i); }
    }
  }

  /** A tiling minus its first field tiles the rest of the range. */
  lemma TilesTail(fs: seq<Field>, lo: nat, hi: nat)
    requires Tiles(fs, lo, hi) && |fs| > 1
    ensures Tiles(fs[1..], fs[0].end, hi)
  {
    var t := fs[1..];
    assert forall j :: 0 <= j < |t| ==> t[j] == fs[j + 1];
  }

  /** Every offset of the range lies in some field of a tiling. */
  lemma {:induction false} TilesCover(fs: seq<Field>, lo: nat, hi: nat, b: nat)
    requires Tiles(fs, lo, hi) && lo <= b < hi
    ensures Covered(fs, b)
    decreases |fs|
  {
    if b >= fs[0].end {
      TilesTail(fs, lo, hi);
      TilesCover(fs[1..], fs[0].end, hi, b);
      var j :| 0 <= j < |fs| - 1 && InField(fs[1..][j], b);
      assert fs[j + 1] == fs[1..][j];
    } else {
      assert InField(fs[0], b);
    }
  }

  /** The token ranges of a tiling, concatenated. */
  function JoinSlices(c: seq<Token>, fs: seq<Field>): seq<Token>
    requires forall j :: 0 <= j < |fs| ==> fs[j].start <= fs[j].end <= |c|
  {
    if |fs| == 0 then [] else c[fs[0].start..fs[0].end] + JoinSlices(c, fs[1..])
  }

  /** The slices of a tiling, concatenated in table order, are exactly the
      tiled range. */
  lemma {:induction false} JoinSlicesTiled(c: seq<Token>, fs: seq<Field>, lo: nat, hi: nat)
    requires Tiles(fs, lo, hi) && lo <= hi <= |c|
    ensures forall j :: 0 <= j < |fs| ==> fs[j].start <= fs[j].end <= |c|
    ensures JoinSlices(c, fs) == c[lo..hi]
    decreases |fs|
  {
    forall j | 0 <= j < |fs| ensures fs[j].start <= fs[j].end <= |c| {
      if j < |fs| - 1 { TilesOrdered(fs, lo, hi, j, |fs| - 1); }
    }
    if |fs| == 1 {
      assert JoinSlices(c, fs[1..]) == [];
    } else {
      TilesTail(fs, lo, hi);
      TilesOrdered(fs, lo, hi, 0, |fs| - 1);
      JoinSlicesTiled(c, fs[1..], fs[0].end, hi);
      assert c[lo..hi] == c[lo..fs[0].end] + c[fs[0].end..hi];
    }
  }

  /** The 23 field slices partition the critical region: pairwise disjoint, in
      increasing offset order, covering every critical token, and concatenated
      they give back the whole region. */
  lemma FieldsPartitionCritical(critical: seq<Token>)
    requires |critical| == CriticalTokens
    ensures forall i, j :: 0 <= i < j < FieldCount ==> Table[i].end <= Table[j].start
    ensures forall b :: 0 <= b < CriticalTokens ==> Covered(Table, b)
    ensures forall i, j, b ::
              0 <= i < FieldCount && 0 <= j < FieldCount && i != j && InField(Table[i], b) ==>
              !InField(Table[j], b)
    ensures JoinSlices(critical, Table) == critical
  {
    TableTiles();
    forall i, j | 0 <= i < j < FieldCount ensures Table[i].end <= Table[j].start {
      TilesOrdered(Table, 0, CriticalTokens, i, j);
    }
    forall b | 0 <= b < CriticalTokens ensures Covered(Table, b) {
      TilesCover(Table, 0, CriticalTokens, b);
    }
    TilesDisjoint(Table, 0, CriticalTokens);
    JoinSlicesTiled(critical, Table, 0, CriticalTokens);
    assert critical[0..CriticalTokens] == critical;
  }

  /** The hex text of field `j`: its tokens joined in normalised order. Cut
      back into two-character pairs, it gives the field's tokens again, in
      order. */
  function FieldText(critical: seq<Token>, j: nat): (r: string)
    requires |critical| == CriticalTokens && j < FieldCount
    ensures Table[j].start < Table[j].end <= CriticalTokens
    ensures AllPairs(critical) ==>
              |r| == 2 * (Table[j].end - Table[j].start)
              && Chunks(r) == critical[Table[j].start..Table[j].end]
  {
    FieldBounds(j);
    var ts := critical[Table[j].start..Table[j].end];
    SlicePairs(critical, Table[j].start, Table[j].end);
    ConcatPairs(ts);
    Concat(ts)
  }

  /** Every field is a non-empty range of critical tokens. */
  lemma FieldBounds(j: nat)
    requires j < FieldCount
    ensures Table[j].start < Table[j].end <= CriticalTokens
  {
    TableTiles();
    if j < FieldCount - 1 { TilesOrdered(Table, 0, CriticalTokens, j, FieldCount - 1); }
  }

  /** A slice of two-character tokens holds two-character tokens. */
  lemma SlicePairs(ts: seq<Token>, lo: nat, hi: nat)
    requires lo <= hi <= |ts|
    ensures AllPairs(ts) ==> AllPairs(ts[lo..hi])
  {
    if AllPairs(ts) {
      var part := ts[lo..hi];
      forall k | 0 <= k < |part| ensures |part[k]| == 2 { assert part[k] == ts[lo + k]; }
    }
  }

  /** Gluing two-character tokens and cutting the result into pairs gives
      them back. */
  lemma ConcatPairs(ts: seq<Token>)
    ensures AllPairs(ts) ==> |Concat(ts)| == 2 * |ts| && Chunks(Concat(ts)) == ts
  {
    if AllPairs(ts) { ChunksConcat(ts); }
  }
}
