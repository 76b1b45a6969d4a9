/**
  The chunk file (tools/quantize_md_video.py, write_huffman_outputs): one
  alphabet for all chunks, every chunk packed on its own, and a table that
  locates each of them.
*/
module HuffmanChunks {
  import opened Arith
  import opened HuffmanOptimality
  import opened HuffmanLengths
  import opened HuffmanCodes

  datatype TableEntry = TableEntry(offset: nat, bytes: nat, bits: nat)

  datatype ChunkFile = ChunkFile(lengths: seq<nat>, table: seq<TableEntry>, stream: seq<nat>)

  ghost predicate ByteChunks(chunks: seq<seq<nat>>) {
    forall i :: 0 <= i < |chunks| ==> forall x :: x in chunks[i] ==> x < SYMBOLS
  }

  ghost function Occurrences(chunks: seq<seq<nat>>): multiset<nat> {
    if chunks == [] then multiset{} else Occurrences(chunks[..|chunks| - 1]) + multiset(chunks[|chunks| - 1])
  }

  /** freq counts every byte of the chunks. */
  ghost predicate Counts(freq: seq<nat>, seen: multiset<nat>) {
    |freq| == SYMBOLS && forall s :: 0 <= s < SYMBOLS ==> freq[s] == seen[s]
  }

  lemma OccurrencesNext(chunks: seq<seq<nat>>, i: nat)
    requires i < |chunks|
    ensures Occurrences(chunks[..i + 1]) == Occurrences(chunks[..i]) + multiset(chunks[i])
  {
    assert chunks[..i + 1][..i] == chunks[..i];
  }

  lemma {:induction false} OccursIn(chunks: seq<seq<nat>>, i: nat, x: nat)
    requires i < |chunks| && x in chunks[i]
    ensures x in Occurrences(chunks)
  {
    if i < |chunks| - 1 {
      OccursIn(chunks[..|chunks| - 1], i, x);
    }
  }

  method CountBytes(chunks: seq<seq<nat>>) returns (freq: seq<nat>)
    requires ByteChunks(chunks)
    ensures Counts(freq, Occurrences(chunks))
  {
    freq := seq(SYMBOLS, _ => 0);
    for i := 0 to |chunks|
      invariant Counts(freq, Occurrences(chunks[..i]))
    {
      var chunk := chunks[i];
      OccurrencesNext(chunks, i);
      for k := 0 to |chunk|
        invariant Counts(freq, Occurrences(chunks[..i]) + multiset(chunk[..k]))
      {
        assert chunk[..k + 1] == chunk[..k] + [chunk[k]];
        assert chunk[k] in chunk;
        freq := freq[chunk[k] := freq[chunk[k]] + 1];
      }
      assert chunk[..|chunk|] == chunk;
    }
    assert chunks[..|chunks|] == chunks;
  }

  // The lengths of a counted alphabet give a prefix code

  lemma LengthsPositive(freq: seq<nat>, s: nat)
    requires s < |freq| && Used(freq, |freq|) >= 1
    ensures Lengths(freq)[s] > 0 <==> freq[s] > 0
  {
    LengthsFeasible(freq, SomeBound(Lengths(freq)));
  }

  lemma {:induction false} KraftSame(freq: seq<nat>, ls: seq<nat>, m: nat, n: nat)
    requires n <= |freq| == |ls| && Bounded(ls, m)
    requires forall s :: 0 <= s < |freq| ==> (ls[s] > 0 <==> freq[s] > 0)
    ensures LengthKraft(ls, m, n) == UsedKraft(freq, ls, m, n)
  {
    if n > 0 { KraftSame(freq, ls, m, n - 1); }
  }

  lemma {:induction false} KraftOfOne(ls: seq<nat>, m: nat, n: nat)
    requires 0 < n <= |ls| && Bounded(ls, m)
    requires ls[0] == 1 && forall s :: 0 < s < |ls| ==> ls[s] == 0
    ensures LengthKraft(ls, m, n) == Pow2(m - 1)
  {
    if n > 1 { KraftOfOne(ls, m, n - 1); }
  }

  lemma LengthsKraft(freq: seq<nat>, m: nat)
    requires |freq| > 0 && Bounded(Lengths(freq), m)
    ensures LengthKraft(Lengths(freq), m, |freq|) <= Pow2(m)
  {
    if Used(freq, |freq|) == 0 {
      KraftOfOne(Lengths(freq), m, |freq|);
    } else {
      LengthsFeasible(freq, m);
      forall s | 0 <= s < |freq| ensures Lengths(freq)[s] > 0 <==> freq[s] > 0 {
        LengthsPositive(freq, s);
      }
      KraftSame(freq, Lengths(freq), m, |freq|);
    }
  }

  /** Every alphabet the merge produces has codes that fit and are prefix-free. */
  lemma AlphabetIsPrefixCode(freq: seq<nat>, codes: map<nat, Code>)
    requires |freq| > 0 && IsCanonical(Lengths(freq), codes)
    ensures CodesFit(codes) && PrefixFree(codes)
  {
    var m := SomeBound(Lengths(freq));
    LengthsKraft(freq, m);
    CanonicalFits(Lengths(freq), codes, m);
    CanonicalPrefixFree(Lengths(freq), codes, m);
  }

  // How many bits a chunk takes

  lemma {:induction false} StreamBits(data: seq<nat>, codes: map<nat, Code>, ls: seq<nat>)
    requires forall x :: x in data ==> x in codes && x < |ls| && codes[x].length == ls[x]
    ensures |Stream(data, codes)| == LeafSum(multiset(data), ls)
  {
    hide Bits, LeafSum;
    if data == [] {
      LeafSumNone(ls);
    } else {
      var init, last := data[..|data| - 1], data[|data| - 1];
      StreamBits(init, codes, ls);
      assert data == init + [last];
      LeafSumUnion(multiset(init), multiset{last}, ls);
      LeafSumOne(last, ls);
      assert |Word(codes[last])| == ls[last];
    }
  }

  lemma {:induction false} LeafSumNone(ls: seq<nat>)
    ensures LeafSum(multiset{}, ls) == 0
  {
    if ls != [] { LeafSumNone(ls[..|ls| - 1]); }
  }

  lemma {:induction false} CountedBits(freq: seq<nat>, seen: multiset<nat>, ls: seq<nat>, n: nat)
    requires Counts(freq, seen) && |ls| == |freq| && n <= |freq|
    ensures LeafSum(seen, ls[..n]) == TotalBits(freq, ls, n)
  {
    if n > 0 {
      CountedBits(freq, seen, ls, n - 1);
      assert ls[..n][..n - 1] == ls[..n - 1];
    }
  }

  // The chunk loop

  ghost function Slice(file: ChunkFile, entry: TableEntry): seq<nat>
    requires entry.offset + entry.bytes <= |file.stream|
  {
    file.stream[entry.offset..entry.offset + entry.bytes]
  }

  /** The entry locates bytes that hold the chunk's codes and decode to it. */
  ghost predicate Decodes(file: ChunkFile, entry: TableEntry, codes: map<nat, Code>, chunk: seq<nat>) {
    && entry.offset + entry.bytes <= |file.stream|
    && (forall x :: x in chunk ==> x in codes)
    && Holds(Slice(file, entry), entry.bits, Stream(chunk, codes))
    && entry.bits <= |Unpack(Slice(file, entry))|
    && Decode(codes, Unpack(Slice(file, entry))[..entry.bits], SYMBOLS) == Some(chunk)
  }

  lemma ChunkDecodes(bytes: seq<nat>, bits: nat, codes: map<nat, Code>, chunk: seq<nat>)
    requires CodesFit(codes) && PrefixFree(codes)
    requires forall x :: x in chunk ==> x in codes && x < SYMBOLS
    requires Holds(bytes, bits, Stream(chunk, codes))
    ensures bits <= |Unpack(bytes)| && Decode(codes, Unpack(bytes)[..bits], SYMBOLS) == Some(chunk)
  {
    hide Bits, Decode, Stream;
    DecodeStream(chunk, codes, SYMBOLS);
    assert Unpack(bytes)[..bits] == Stream(chunk, codes);
  }

  ghost function TableBits(table: seq<TableEntry>): nat {
    if table == [] then 0 else TableBits(table[..|table| - 1]) + table[|table| - 1].bits
  }

  lemma TableBitsAppend(table: seq<TableEntry>, e: TableEntry)
    ensures TableBits(table + [e]) == TableBits(table) + e.bits
  {
    assert (table + [e])[..|table|] == table;
  }

  lemma StreamGrows(lengths: seq<nat>, table: seq<TableEntry>, stream: seq<nat>, more: seq<nat>,
                    e: TableEntry, codes: map<nat, Code>, chunk: seq<nat>)
    requires Decodes(ChunkFile(lengths, table, stream), e, codes, chunk)
    ensures forall t :: Decodes(ChunkFile(lengths, t, stream + more), e, codes, chunk)
  {
    hide Decode, Holds, Stream, Unpack;
    forall t ensures Decodes(ChunkFile(lengths, t, stream + more), e, codes, chunk) {
      assert Slice(ChunkFile(lengths, t, stream + more), e) == Slice(ChunkFile(lengths, table, stream), e);
    }
  }

  predicate FieldsFit(e: TableEntry) {
    e.offset < 0x1_0000_0000 && e.bytes < 0x1_0000 && e.bits < 0x1_0000
  }

  /** Four bytes for the offset, two each for the counts. */
  lemma FieldsFitIs(e: TableEntry)
    ensures FieldsFit(e) <==> e.offset / 256 / 256 / 256 <= 255 && e.bytes / 256 <= 255 && e.bits / 256 <= 255
  {
  }

  ghost predicate FileHolds(file: ChunkFile, codes: map<nat, Code>, chunks: seq<seq<nat>>) {
    && |file.table| == |chunks|
    && forall i :: 0 <= i < |chunks| ==> Decodes(file, file.table[i], codes, chunks[i])
  }

  method PackChunks(chunks: seq<seq<nat>>, lengths: seq<nat>, codes: map<nat, Code>) returns (file: ChunkFile)
    requires ByteChunks(chunks) && |lengths| == SYMBOLS
    requires CodesFit(codes) && PrefixFree(codes)
    requires forall i, x :: 0 <= i < |chunks| && x in chunks[i] ==> x in codes && codes[x].length == lengths[x]
    ensures file.lengths == lengths && FileHolds(file, codes, chunks)
    ensures TableBits(file.table) == LeafSum(Occurrences(chunks), lengths)
  {
    hide Decode, Stream, Unpack, Holds, Decodes, LeafSum;
    var table: seq<TableEntry>, stream: seq<nat>, offset: nat := [], [], 0;
    LeafSumNone(lengths);
    for i := 0 to |chunks|
      invariant offset == |stream|
      invariant FileHolds(ChunkFile(lengths, table, stream), codes, chunks[..i])
      invariant TableBits(table) == LeafSum(Occurrences(chunks[..i]), lengths)
    {
      var chunk := chunks[i];
      var encoded := Encode(chunk, codes);
      var entry := TableEntry(offset, |encoded.bytes|, encoded.bits);
      AppendChunk(ChunkFile(lengths, table, stream), codes, chunks, i, encoded);
      OccurrencesNext(chunks, i);
      LeafSumUnion(Occurrences(chunks[..i]), multiset(chunk), lengths);
      StreamBits(chunk, codes, lengths);
      EncodedSize(encoded, chunk, codes);
      TableBitsAppend(table, entry);
      table := table + [entry];
      stream := stream + encoded.bytes;
      offset := offset + |encoded.bytes|;
    }
    assert chunks[..|chunks|] == chunks;
    file := ChunkFile(lengths, table, stream);
  }

  lemma EncodedSize(e: Encoded, chunk: seq<nat>, codes: map<nat, Code>)
    requires e.Encoded? && (forall x :: x in chunk ==> x in codes) && Holds(e.bytes, e.bits, Stream(chunk, codes))
    ensures e.bits == |Stream(chunk, codes)|
  {
  }

  lemma AppendChunk(file: ChunkFile, codes: map<nat, Code>, chunks: seq<seq<nat>>, i: nat, e: Encoded)
    requires i < |chunks| && FileHolds(file, codes, chunks[..i]) && e.Encoded?
    requires CodesFit(codes) && PrefixFree(codes)
    requires forall x :: x in chunks[i] ==> x in codes && x < SYMBOLS
    requires Holds(e.bytes, e.bits, Stream(chunks[i], codes))
    ensures FileHolds(ChunkFile(file.lengths, file.table + [TableEntry(|file.stream|, |e.bytes|, e.bits)],
                                file.stream + e.bytes), codes, chunks[..i + 1])
  {
    hide Decode, Stream, Unpack, Holds;
    var entry := TableEntry(|file.stream|, |e.bytes|, e.bits);
    var next := ChunkFile(file.lengths, file.table + [entry], file.stream + e.bytes);
    ChunkDecodes(e.bytes, e.bits, codes, chunks[i]);
    assert Slice(next, entry) == e.bytes;
    forall k | 0 <= k < i + 1 ensures Decodes(next, next.table[k], codes, chunks[..i + 1][k]) {
      if k < i {
        assert Decodes(file, file.table[k], codes, chunks[..i][k]);
        StreamGrows(file.lengths, file.table, file.stream, e.bytes, file.table[k], codes, chunks[k]);
      }
    }
  }

  /** write_huffman_outputs.  Writing the table stops at the first entry that
      does not fit its fields; lengths and stream are written before it. */
  method WriteChunks(chunks: seq<seq<nat>>)
    returns (file: ChunkFile, tooLarge: Option<nat>, ghost codes: map<nat, Code>, ghost freq: seq<nat>)
    requires ByteChunks(chunks)
    ensures Counts(freq, Occurrences(chunks)) && IsCanonical(Lengths(freq), codes)
    ensures file.lengths == Lengths(freq) && FileHolds(file, codes, chunks)
    ensures forall s :: 0 <= s < |file.lengths| ==> file.lengths[s] <= 255
    ensures forall ls, m :: Feasible(freq, ls, m) ==> TableBits(file.table) <= TotalBits(freq, ls, |freq|)
    ensures tooLarge.None? <==> forall e :: e in file.table ==> FieldsFit(e)
    ensures tooLarge.Some? ==> tooLarge.value < |file.table| && !FieldsFit(file.table[tooLarge.value])
    ensures tooLarge.Some? ==> forall k :: 0 <= k < tooLarge.value ==> FieldsFit(file.table[k])
  {
    hide FileHolds, IsCanonical, Lengths, TotalBits, LeafSum, PrefixFree, CodesFit;
    var f := CountBytes(chunks);
    freq := f;
    var lengths := CodeLengths(f);
    var c := CanonicalCodes(lengths);
    codes := c;
    AlphabetIsPrefixCode(freq, codes);
    forall i, x | 0 <= i < |chunks| && x in chunks[i] ensures x in codes && codes[x].length == lengths[x] {
      CountedHasCode(chunks, i, x, freq, codes);
    }
    file := PackChunks(chunks, lengths, c);
    forall s | 0 <= s < |lengths| ensures lengths[s] <= 255 { LengthsFitBytes(freq, s); }
    CountedBits(freq, Occurrences(chunks), lengths, SYMBOLS);
    assert lengths[..SYMBOLS] == lengths;
    forall ls, m | Feasible(freq, ls, m) ensures TableBits(file.table) <= TotalBits(freq, ls, |freq|) {
      LengthsOptimal(freq, ls, m);
    }
    tooLarge := None;
    for i := 0 to |file.table|
      invariant forall k :: 0 <= k < i ==> FieldsFit(file.table[k])
    {
      if !FieldsFit(file.table[i]) {
        tooLarge := Some(i);
        return;
      }
    }
  }

  lemma CountedHasCode(chunks: seq<seq<nat>>, i: nat, x: nat, freq: seq<nat>, codes: map<nat, Code>)
    requires ByteChunks(chunks) && i < |chunks| && x in chunks[i]
    requires Counts(freq, Occurrences(chunks)) && IsCanonical(Lengths(freq), codes)
    ensures x in codes && codes[x].length == Lengths(freq)[x]
  {
    hide Lengths, SortedPairs;
    OccursIn(chunks, i, x);
    NoSymbols(freq, |freq|, x);
    LengthsPositive(freq, x);
  }
}
