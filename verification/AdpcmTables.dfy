/**
  The player's lookup tables (tools/ima_adpcm.py, full_tables and split_tables)
  and a decoder that uses nothing else: the index is kept as index * 32, the
  next-index and signed-delta tables are read big endian, and the output table
  turns the predictor's high byte into an RF5C164 byte.
*/
module AdpcmTables {
  import opened Arith
  import opened Adpcm

  const ENTRIES: nat := 1424  // 89 indices times 16 codes
  const FULL_INDEX_BYTES: nat := 2848
  const FULL_DELTA_BYTES: nat := 5696
  const OUTPUT_LUT_BYTES: nat := 256
  const FULL_TABLE_BYTES: nat := 8800

  // Big-endian words

  type Word16 = w: nat | w < 65536 witness 0

  type Signed32 = v: int | -0x8000_0000 <= v < 0x8000_0000 witness 0

  function Big16(w: Word16): (r: seq<Byte>)
    ensures |r| == 2
  {
    [w / 256, w % 256]
  }

  function Read16(high: int, low: int): int { high * 256 + low }

  function Big32(v: Signed32): (r: seq<Byte>)
    ensures |r| == 4
  {
    var w: int := if v < 0 then v + 0x1_0000_0000 else v;
    [w / 0x100_0000, w / 0x1_0000 % 256, w / 256 % 256, w % 256]
  }

  function Read32(a: int, b: int, c: int, d: int): int {
    var w := ((a * 256 + b) * 256 + c) * 256 + d;
    if w >= 0x8000_0000 then w - 0x1_0000_0000 else w
  }

  lemma Reads16(w: Word16)
    ensures Read16(Big16(w)[0], Big16(w)[1]) == w
  {
  }

  lemma Reads32(v: Signed32)
    ensures Read32(Big32(v)[0], Big32(v)[1], Big32(v)[2], Big32(v)[3]) == v
  {
    var w: int := if v < 0 then v + 0x1_0000_0000 else v;
    var a, b, c, d := w / 0x100_0000, w / 0x1_0000 % 256, w / 256 % 256, w % 256;
    assert w / 256 == (w / 0x1_0000) * 256 + c;
    assert w / 0x1_0000 == a * 256 + b;
  }

  // Tables are rows of equal width, one after the other

  function Flat(rows: seq<seq<Byte>>): seq<Byte> {
    if rows == [] then [] else Flat(rows[..|rows| - 1]) + rows[|rows| - 1]
  }

  ghost predicate Width(rows: seq<seq<Byte>>, w: nat) {
    forall i :: 0 <= i < |rows| ==> |rows[i]| == w
  }

  lemma {:induction false} FlatLength(rows: seq<seq<Byte>>, w: nat)
    requires Width(rows, w)
    ensures |Flat(rows)| == |rows| * w
  {
    if rows != [] {
      FlatLength(rows[..|rows| - 1], w);
      assert |rows| * w == (|rows| - 1) * w + w;
    }
  }

  lemma {:induction false} FlatAt(rows: seq<seq<Byte>>, w: nat, i: nat, j: nat)
    requires Width(rows, w) && i < |rows| && j < w
    ensures i * w + j < |Flat(rows)| && Flat(rows)[i * w + j] == rows[i][j]
  {
    var init := rows[..|rows| - 1];
    FlatLength(init, w);
    FlatLength(rows, w);
    if i < |init| {
      FlatAt(init, w, i, j);
    } else {
      assert i * w + j == |Flat(init)| + j;
    }
  }

  lemma FlatAppend(rows: seq<seq<Byte>>, k: nat)
    requires k < |rows|
    ensures Flat(rows[..k + 1]) == Flat(rows[..k]) + rows[k]
  {
    assert rows[..k + 1][..k] == rows[..k];
  }

  type Entry = k: nat | k < 1424 witness 0

  function IndexEntry(k: Entry): Word16 { Times32(ClampIndex(k / 16 + INDEX_TABLE[k % 16])) }

  function Times32(i: int): int { i * 32 }

  function DeltaEntry(k: Entry): Signed32 { Delta(StepAt(k / 16), k % 16) }

  function IndexRows(): (rows: seq<seq<Byte>>)
    ensures |rows| == ENTRIES
  {
    seq(ENTRIES, k requires 0 <= k < ENTRIES => Big16(IndexEntry(k)))
  }

  function DeltaRows(): (rows: seq<seq<Byte>>)
    ensures |rows| == ENTRIES
  {
    seq(ENTRIES, k requires 0 <= k < ENTRIES => Big32(DeltaEntry(k)))
  }

  /** Offset-high to RF5C164: the entry for a predictor p is p >> 8, plus 128. */
  function OutputLut(): (lut: seq<Byte>)
    ensures |lut| == OUTPUT_LUT_BYTES
    ensures forall b :: b in lut ==> b != 0xFF
  {
    seq(OUTPUT_LUT_BYTES, high requires 0 <= high < OUTPUT_LUT_BYTES => SignMagnitude(Offset(high)))
  }

  function Offset(high: int): int { (high - 128) * 256 }

  function FullTables(): seq<Byte> {
    Flat(IndexRows()) + Flat(DeltaRows()) + OutputLut()
  }

  lemma FullTablesLength()
    ensures |Flat(IndexRows())| == FULL_INDEX_BYTES && |Flat(DeltaRows())| == FULL_DELTA_BYTES
    ensures |FullTables()| == FULL_TABLE_BYTES
  {
    FlatLength(IndexRows(), 2);
    FlatLength(DeltaRows(), 4);
  }

  /** full_tables: both tables are filled entry by entry. */
  method BuildTables() returns (blob: seq<Byte>)
    ensures blob == FullTables() && |blob| == FULL_TABLE_BYTES
  {
    hide Flat, IndexRows, DeltaRows, IndexEntry, DeltaEntry, Delta, StepAt, ClampIndex, Big16, Big32;
    var indices: seq<Byte>, deltas: seq<Byte> := [], [];
    FlatNone(IndexRows());
    FlatNone(DeltaRows());
    for index := 0 to 89
      invariant indices == Flat(IndexRows()[..index * 16]) && deltas == Flat(DeltaRows()[..index * 16])
    {
      var step := StepAt(index);
      for code := 0 to 16
        invariant indices == Flat(IndexRows()[..index * 16 + code])
        invariant deltas == Flat(DeltaRows()[..index * 16 + code])
      {
        var newIndex := ClampIndex(index + INDEX_TABLE[code]);
        RowsAt(index, code);
        FlatAppend(IndexRows(), index * 16 + code);
        FlatAppend(DeltaRows(), index * 16 + code);
        indices := indices + Big16(Times32(newIndex));
        deltas := deltas + Big32(Delta(step, code));
      }
    }
    assert IndexRows()[..ENTRIES] == IndexRows() && DeltaRows()[..ENTRIES] == DeltaRows();
    FullTablesLength();
    blob := indices + deltas + OutputLut();
  }

  lemma FlatNone(rows: seq<seq<Byte>>)
    ensures Flat(rows[..0]) == []
  {
  }

  lemma RowsAt(index: Index, code: Nibble)
    ensures index * 16 + code < ENTRIES
    ensures 0 <= Times32(ClampIndex(index + INDEX_TABLE[code])) < 65536
    ensures -0x8000_0000 <= Delta(StepAt(index), code) < 0x8000_0000
    ensures IndexRows()[index * 16 + code] == Big16(Times32(ClampIndex(index + INDEX_TABLE[code])))
    ensures DeltaRows()[index * 16 + code] == Big32(Delta(StepAt(index), code))
  {
    hide StepAt;
    var k: Entry := index * 16 + code;
    assert k / 16 == index && k % 16 == code;
    DeltaRange(StepAt(index), code);
    assert IndexEntry(k) == Times32(ClampIndex(index + INDEX_TABLE[code]));
    assert DeltaEntry(k) == Delta(StepAt(index), code);
  }

  lemma DeltaRange(step: Step, code: Nibble)
    ensures -0x8000_0000 <= Delta(step, code) < 0x8000_0000
  {
  }

  /** split_tables; None for a blob of the wrong size. */
  function SplitTables(blob: seq<Byte>): (r: Option<(seq<Byte>, seq<Byte>, seq<Byte>)>)
    ensures r.Some? <==> |blob| == FULL_TABLE_BYTES
    ensures r.Some? ==> r.value.0 + r.value.1 + r.value.2 == blob && |r.value.0| == FULL_INDEX_BYTES
    ensures r.Some? ==> |r.value.1| == FULL_DELTA_BYTES && |r.value.2| == OUTPUT_LUT_BYTES
  {
    if |blob| != FULL_TABLE_BYTES then None
    else Some((blob[..FULL_INDEX_BYTES],
               blob[FULL_INDEX_BYTES..FULL_INDEX_BYTES + FULL_DELTA_BYTES],
               blob[FULL_INDEX_BYTES + FULL_DELTA_BYTES..]))
  }

  lemma SplitFull()
    ensures SplitTables(FullTables()) == Some((Flat(IndexRows()), Flat(DeltaRows()), OutputLut()))
  {
    hide Flat, IndexRows, DeltaRows, OutputLut;
    FullTablesLength();
  }

  /** What the tables answer for an index kept as index * 32. */
  lemma TableLookups(index: Index, code: Nibble)
    ensures var t, at := Flat(IndexRows()), index * 32 + 2 * code;
            at + 1 < |t| && Read16(t[at], t[at + 1]) == Times32(ClampIndex(index + INDEX_TABLE[code]))
    ensures var t, at := Flat(DeltaRows()), 2 * (index * 32 + 2 * code);
            at + 3 < |t| && Read32(t[at], t[at + 1], t[at + 2], t[at + 3]) == Delta(StepAt(index), code)
  {
    hide Flat, IndexRows, DeltaRows, StepAt, Delta, ClampIndex, Read16, Read32, Big16, Big32;
    RowsAt(index, code);
    var k := index * 16 + code;
    RowWidths();
    FlatAt(IndexRows(), 2, k, 0);
    FlatAt(IndexRows(), 2, k, 1);
    FlatAt(DeltaRows(), 4, k, 0);
    FlatAt(DeltaRows(), 4, k, 1);
    FlatAt(DeltaRows(), 4, k, 2);
    FlatAt(DeltaRows(), 4, k, 3);
    Reads16(Times32(ClampIndex(index + INDEX_TABLE[code])));
    Reads32(Delta(StepAt(index), code));
  }

  lemma RowWidths()
    ensures Width(IndexRows(), 2) && Width(DeltaRows(), 4)
  {
  }

  lemma LutLookup(p: S16)
    ensures 0 <= p / 256 + 128 < 256 && OutputLut()[p / 256 + 128] == SignMagnitude(p)
  {
    HighByteDecides(p);
  }

  lemma HighByteDecides(p: S16)
    ensures -32768 <= Offset(p / 256 + 128) <= 32767
    ensures SignMagnitude(Offset(p / 256 + 128)) == SignMagnitude(p)
  {
  }

  /** A decoder that only adds, clamps and looks up. */
  method TableDecode(indices: seq<Byte>, deltas: seq<Byte>, lut: seq<Byte>, data: seq<Byte>, count: nat, st: State)
    returns (predictors: seq<S16>, output: seq<Byte>)
    requires indices == Flat(IndexRows()) && deltas == Flat(DeltaRows()) && lut == OutputLut()
    requires count <= 2 * |data|
    ensures predictors == Decoded(Adpcm.Unpack(data, count), st)
    ensures output == SignMagnitudes(predictors)
    ensures forall i :: 0 <= i < |output| ==> output[i] != 0xFF
  {
    hide Flat, IndexRows, DeltaRows, OutputLut, StepAt, Delta, ClampIndex, Read16, Read32, SignMagnitude, Decoded,
         After, Adpcm.Unpack;
    predictors, output := [], [];
    var predictor: S16, x32: nat := st.predictor, Times32(st.index);
    ghost var index: Index := st.index;
    DecodedNone(st);
    assert Adpcm.Unpack(data, 0) == [];
    for n := 0 to count
      invariant x32 == index * 32 && State(predictor, index) == After(Adpcm.Unpack(data, n), st)
      invariant predictors == Decoded(Adpcm.Unpack(data, n), st)
      invariant output == SignMagnitudes(predictors)
    {
      var code := NibbleAt(data, n);
      UnpackNext(data, n);
      DecodedNext(Adpcm.Unpack(data, n), code, st);
      TableLookups(index, code);
      var at: nat := x32 + 2 * (code as int);
      var change := Read32(deltas[2 * at], deltas[2 * at + 1], deltas[2 * at + 2], deltas[2 * at + 3]);
      predictor := Clamp(predictor + change);
      x32 := Read16(indices[at], indices[at + 1]);
      index := ClampIndex(index + INDEX_TABLE[code]);
      LutLookup(predictor);
      predictors := predictors + [predictor];
      output := output + [lut[predictor / 256 + 128]];
    }
  }
}
