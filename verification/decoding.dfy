/** The five decode rules and what each writes for a field of a normalised
    frame (cf-nf_data.py lines 33-37 and 98-130). */
module Decoding {
  import opened Optional
  import opened Numerals
  import opened PyConv
  import opened Frames
  import opened Layout

  const Two32: int := 0x1_0000_0000
  const Two31: int := 0x8000_0000

  /** A decoded field value, before it is written out. */
  datatype Decoded =
    | Number(n: int)                 // written in decimal
    | Text(text: string)             // written as is
    | Bits(bits: nat, width: nat)    // written in binary, zero-padded to width

  /** `adc_int` (lines 33-37): values above 0x7FFFFFFF lose 2^32. */
  function AdcInt(v: nat): (r: int)
    ensures v < Two32 ==> -Two31 <= r < Two31
    ensures v < Two32 ==> r % Two32 == v
  {
    if v > 0x7FFF_FFFF then v - Two32 else v
  }

  /** Every signed 32-bit value is `adc_int` of its two's-complement bit
      pattern, so the conversion loses nothing. */
  lemma AdcIntInverse(r: int)
    requires -Two31 <= r < Two31
    ensures 0 <= r % Two32 < Two32
    ensures AdcInt(r % Two32) == r
  {
    if r < 0 {
      assert r % Two32 == r + Two32;
    } else {
      assert r % Two32 == r;
    }
  }

  /** The boundary values of the two's-complement conversion. */
  lemma AdcIntBoundaries()
    ensures AdcInt(0x0000_0000) == 0
    ensures AdcInt(0x7FFF_FFFF) == 2147483647
    ensures AdcInt(0x8000_0000) == -2147483648
    ensures AdcInt(0xFFFF_FFFF) == -1
  {
  }

  /** `v & 0x0FFF` (lines 98-101): the low 12 bits of `v`. */
  function Mask12Of(v: nat): (r: nat)
    ensures r <= 4095
    ensures r == v % 4096
  {
    BitAndLowMask(v, 12);
    assert Pow(2, 12) == 4096;
    BitAnd(v, 0x0FFF)
  }

  /** Masking examples: 0x1FFF keeps 4095, 0x0FFF keeps 4095, 0 stays 0. */
  lemma Mask12Examples()
    ensures Mask12Of(0x1FFF) == 4095 && Mask12Of(0x0FFF) == 4095 && Mask12Of(0) == 0
  {
    assert 0x1FFF % 4096 == 4095 && 0x0FFF % 4096 == 4095;
  }

  /** Applies a decode rule to a field's hex text. Every rule but the hex
      passthrough parses the text with `int(text, 16)` and fails with it. The
      masked rule goes through `hex()` and `int(..., 16)` once more, exactly as
      the source does (lines 98-101, 103-106, 119-122). */
  function DecodeField(kind: DecodeKind, text: string): (r: Option<Decoded>)
    ensures kind == HexPass ==> r == Some(Text(text))
    ensures kind != HexPass ==> (r.Some? <==> IntBase16(text).Some?)
    ensures kind == Mask12 && r.Some? ==>
              r.value == Number(IntBase16(text).value % 4096)
  {
    match kind
    case HexPass => Some(Text(text))
    case Unsigned =>
      var v :- IntBase16(text);
      Some(Number(v))
    case Bin(w) =>
      var v :- IntBase16(text);
      Some(Bits(v, w))
    case Mask12 =>
      var v :- IntBase16(text);
      var literal := HexLiteral(Mask12Of(v));
      HexLiteralRoundTrip(Mask12Of(v));
      Some(Number(IntBase16(literal).value))
    case Signed32 =>
      var v :- IntBase16(text);
      Some(Number(AdcInt(v)))
  }

  /** The text written for a decoded value (without the line terminator). */
  function Written(d: Decoded): string {
    match d
    case Number(n) => DecText(n)
    case Text(t) => t
    case Bits(n, w) => BinText(n, w)
  }

  /** A critical region as normalisation produces it. */
  predicate WellFormed(critical: seq<Token>) {
    |critical| == CriticalTokens && AllPairs(critical)
  }

  /** Decodes field `j` of a critical region with the table's rule. */
  function DecodeAt(critical: seq<Token>, j: nat): Option<Decoded>
    requires |critical| == CriticalTokens && j < FieldCount
  {
    DecodeField(Table[j].kind, FieldText(critical, j))
  }

  lemma Pow16(k: nat)
    ensures Pow(16, k) == Pow(2, 4 * k)
  {
    if k > 0 {
      Pow16(k - 1);
      var e := 4 * (k - 1);
      assert Pow(2, e + 4) == 2 * Pow(2, e + 3);
      assert Pow(2, e + 3) == 2 * Pow(2, e + 2);
      assert Pow(2, e + 2) == 2 * Pow(2, e + 1);
      assert Pow(2, e + 1) == 2 * Pow(2, e);
    }
  }

  /** An unsigned field writes the decimal form of the base-16 value of its
      joined tokens (lines 108, 112, 115, 116, 118). */
  lemma UnsignedFieldLine(critical: seq<Token>, j: nat)
    requires WellFormed(critical) && j < FieldCount && Table[j].kind == Unsigned
    requires DecodeAt(critical, j).Some?
    ensures IntBase16(FieldText(critical, j)).Some?
    ensures ParseDecimal(Written(DecodeAt(critical, j).value))
            == Some(IntBase16(FieldText(critical, j)).value as int)
  {
    DecTextRoundTrip(IntBase16(FieldText(critical, j)).value);
  }

  /** A binary field writes exactly 8 characters per byte, each '0' or '1',
      which read in base 2 give the field's hex value (lines 110, 111, 113,
      114, 117, 123, 124). */
  lemma BinaryFieldLine(critical: seq<Token>, j: nat)
    requires WellFormed(critical) && j < FieldCount && Table[j].kind.Bin?
    requires DecodeAt(critical, j).Some?
    ensures var line := Written(DecodeAt(critical, j).value);
            && |line| == Table[j].kind.width == 8 * (Table[j].end - Table[j].start)
            && (forall i :: 0 <= i < |line| ==> line[i] == '0' || line[i] == '1')
            && AllDigits(line, 2)
            && Value(line, 2) == IntBase16(FieldText(critical, j)).value
  {
    var text := FieldText(critical, j);
    var f := Table[j];
    assert f.kind.width == 8 * (f.end - f.start) && f.start < f.end by { TableWidths(); TableTiles(); }
    assert |text| == 2 * (f.end - f.start);
    assert DecodeAt(critical, j) == DecodeField(f.kind, text);
    BinaryText(text, f.end - f.start);
  }

  /** The binary rule on the hex text of a field of `bytes` bytes. */
  lemma BinaryText(text: string, bytes: nat)
    requires bytes >= 1 && |text| == 2 * bytes && IntBase16(text).Some?
    ensures var line := Written(DecodeField(Bin(8 * bytes), text).value);
            && |line| == 8 * bytes
            && (forall i :: 0 <= i < |line| ==> line[i] == '0' || line[i] == '1')
            && AllDigits(line, 2)
            && Value(line, 2) == IntBase16(text).value
  {
    Pow16(2 * bytes);
    BinTextExact(IntBase16(text).value, 8 * bytes);
  }

  /** A masked analog field writes the decimal form of the low 12 bits of its
      hex value, a number in [0, 4095] (lines 98-101, 119-122). */
  lemma MaskedFieldLine(critical: seq<Token>, j: nat)
    requires WellFormed(critical) && j < FieldCount && Table[j].kind == Mask12
    requires DecodeAt(critical, j).Some?
    ensures var v := IntBase16(FieldText(critical, j)).value;
            && DecodeAt(critical, j).value == Number(BitAnd(v, 0x0FFF))
            && 0 <= BitAnd(v, 0x0FFF) <= 4095
            && ParseDecimal(Written(DecodeAt(critical, j).value)) == Some(v % 4096)
  {
    var v := IntBase16(FieldText(critical, j)).value;
    assert Mask12Of(v) == BitAnd(v, 0x0FFF);
    DecTextRoundTrip(v % 4096);
  }

  /** A signed field's four bytes give a value in [-2^31, 2^31) whose 32-bit
      pattern is the field's hex value; its decimal form is written (lines
      33-37, 125-130). */
  lemma SignedFieldLine(critical: seq<Token>, j: nat)
    requires WellFormed(critical) && j < FieldCount && Table[j].kind == Signed32
    requires DecodeAt(critical, j).Some?
    ensures var v := IntBase16(FieldText(critical, j)).value;
            && v < Two32
            && DecodeAt(critical, j).value == Number(AdcInt(v))
            && -Two31 <= AdcInt(v) < Two31
            && AdcInt(v) % Two32 == v
            && ParseDecimal(Written(DecodeAt(critical, j).value)) == Some(AdcInt(v))
  {
    var text := FieldText(critical, j);
    assert |text| == 8 by { TableWidths(); }
    assert DecodeAt(critical, j) == DecodeField(Signed32, text);
    SignedText(text);
  }

  /** The signed rule on eight hex characters. */
  lemma SignedText(text: string)
    requires |text| == 8 && IntBase16(text).Some?
    ensures var v := IntBase16(text).value;
            && v < Two32
            && DecodeField(Signed32, text) == Some(Number(AdcInt(v)))
            && ParseDecimal(DecText(AdcInt(v))) == Some(AdcInt(v))
  {
    assert Pow(16, 8) == Two32;
    DecTextRoundTrip(AdcInt(IntBase16(text).value));
  }

  /** `serial_data` is never parsed: its six hex characters, tokens 2 to 4
      joined, are written unchanged whatever they contain (lines 75, 109). */
  lemma SerialPassthrough(critical: seq<Token>)
    requires WellFormed(critical)
    ensures Table[1].name == "serial_data"
    ensures DecodeAt(critical, 1) == Some(Text(critical[2] + critical[3] + critical[4]))
    ensures |Written(DecodeAt(critical, 1).value)| == 6
  {
    var ts := critical[2..5];
    assert Concat(ts[2..]) == critical[4] + Concat([]) by { assert ts[2..][1..] == []; }
    assert Concat(ts[1..]) == critical[3] + Concat(ts[2..]) by { assert ts[1..][1..] == ts[2..]; }
    assert Concat(ts) == critical[2] + Concat(ts[1..]);
    assert Table[1] == Field("serial_data", 2, 5, HexPass);
    assert FieldText(critical, 1) == Concat(ts);
    assert Concat(ts) == critical[2] + critical[3] + critical[4];
    assert DecodeAt(critical, 1) == Some(Text(Concat(ts)));
  }

  /** A parsed field fails exactly when its text is not hex: any character
      that is not a hex digit, other than the 'x' of a leading "0x", makes the
      field fail, and a field of hex digits always decodes. */
  lemma NonHexFails(critical: seq<Token>, j: nat)
    requires WellFormed(critical) && j < FieldCount && Table[j].kind != HexPass
    ensures var text := FieldText(critical, j);
            && (AllDigits(text, 16) ==> DecodeAt(critical, j).Some?)
            && ((exists i :: 0 <= i < |text| && !IsDigit(text[i], 16) && !(i == 1 && HasHexPrefix(text)))
                ==> DecodeAt(critical, j).None?)
  {
    var text := FieldText(critical, j);
    assert |text| > 0;
    assert DecodeAt(critical, j) == DecodeField(Table[j].kind, text);
    HexText(Table[j].kind, text);
  }

  /** A parsing rule accepts a non-empty text exactly when it is hex. */
  lemma HexText(kind: DecodeKind, text: string)
    requires kind != HexPass && |text| > 0
    ensures AllDigits(text, 16) ==> DecodeField(kind, text).Some?
    ensures (exists i :: 0 <= i < |text| && !IsDigit(text[i], 16) && !(i == 1 && HasHexPrefix(text)))
            ==> DecodeField(kind, text).None?
  {
    if i :| 0 <= i < |text| && !IsDigit(text[i], 16) && !(i == 1 && HasHexPrefix(text)) {
      assert !AllDigits(text, 16) by { AllDigitsAt(text, 16); }
      if HasHexPrefix(text) {
        assert i >= 2 by { assert IsDigit('0', 16); }
        var rest := text[2..];
        assert rest[i - 2] == text[i];
        assert !AllDigits(rest, 16) by { AllDigitsAt(rest, 16); }
      }
    }
  }
}
