/** Layout of a catalogue file: padded values, the sorted index, the trailer (po2lmo.c, template_lmo.c). */
module LmoFile {
  import opened Bytes
  import opened KeyHash
  import opened PoReader

  /** `t` stands in `s` at an offset. */
  predicate At(s: seq<byte>, at: nat, t: seq<byte>) {
    at + |t| <= |s| && s[at..at + |t|] == t
  }

  lemma AtPart(s: seq<byte>, at: nat, a: seq<byte>, b: seq<byte>, c: seq<byte>)
    requires At(s, at, a + b + c)
    ensures At(s, at + |a|, b)
  {
    var w := s[at..at + |a + b + c|];
    forall i | 0 <= i < |b| ensures s[at + |a| + i] == b[i] {
      assert w[|a| + i] == b[i];
    }
  }

  lemma AtConcat(before: seq<byte>, t: seq<byte>, after: seq<byte>)
    ensures At(before + t + after, |before|, t)
  {
  }

  lemma AtInside(before: seq<byte>, s: seq<byte>, after: seq<byte>, at: nat, t: seq<byte>)
    requires At(s, at, t)
    ensures At(before + s + after, |before| + at, t)
  {
    assert (before + s + after)[|before| + at..|before| + at + |t|] == s[at..at + |t|];
  }

  lemma AtLonger(s: seq<byte>, more: seq<byte>, at: nat, t: seq<byte>)
    requires At(s, at, t)
    ensures At(s + more, at, t)
  {
    assert (s + more)[at..at + |t|] == s[at..at + |t|];
  }

  // ----------------------------------------------------------------------------------------------
  // Big-endian words
  // ----------------------------------------------------------------------------------------------

  /** 256 to the power of n */
  function Bound(n: nat): (b: nat)
    ensures b >= 1
  {
    if n == 0 then 1 else 0x100 * Bound(n - 1)
  }

  lemma WordBound()
    ensures Bound(4) == 0x1_0000_0000
  {
    assert Bound(1) == 0x100 && Bound(2) == 0x1_0000 && Bound(3) == 0x100_0000;
  }

  /** The n lowest bytes of a number, highest first, and back. */
  function ToBytes(x: nat, n: nat): (s: seq<byte>)
    ensures |s| == n
  {
    if n == 0 then [] else ToBytes(x / 0x100, n - 1) + [(x % 0x100) as byte]
  }

  function FromBytes(s: seq<byte>): (x: nat)
    ensures x < Bound(|s|)
  {
    if s == [] then 0 else FromBytes(s[..|s| - 1]) * 0x100 + s[|s| - 1] as nat
  }

  lemma {:induction false} BytesRoundTrip(x: nat, n: nat)
    requires x < Bound(n)
    ensures FromBytes(ToBytes(x, n)) == x
    decreases n
  {
    if n > 0 {
      var s := ToBytes(x, n);
      BytesRoundTrip(x / 0x100, n - 1);
      assert s[..n - 1] == ToBytes(x / 0x100, n - 1);
    }
  }

  /** htonl() and the four bytes written for it. */
  function PutWord(x: uint32): (s: seq<byte>)
    ensures |s| == 4
  {
    ToBytes(x as nat, 4)
  }

  /** ntohl() of the word at an offset. */
  function GetWord(s: seq<byte>, at: nat): uint32
    requires at + 4 <= |s|
  {
    WordBound();
    FromBytes(s[at..at + 4]) as uint32
  }

  lemma WordRoundTrip(x: uint32, s: seq<byte>, at: nat)
    requires At(s, at, PutWord(x))
    ensures GetWord(s, at) == x
  {
    WordBound();
    BytesRoundTrip(x as nat, 4);
  }

  /** The number of four bytes in network order. */
  function BigEndian(b: seq<byte>): nat
    requires |b| == 4
  {
    ((b[0] as nat * 256 + b[1] as nat) * 256 + b[2] as nat) * 256 + b[3] as nat
  }

  /** A word is read in network order. */
  lemma GetWordIsBigEndian(s: seq<byte>, at: nat)
    requires at + 4 <= |s|
    ensures GetWord(s, at) as nat == BigEndian(s[at..at + 4])
  {
    FromFour(s[at..at + 4]);
  }

  lemma FromFour(b: seq<byte>)
    requires |b| == 4
    ensures FromBytes(b) == BigEndian(b)
  {
    assert FromBytes(b[..0]) == 0;
    assert b[..3][..2] == b[..2] && b[..2][..1] == b[..1] && b[..1][..0] == b[..0];
    assert FromBytes(b[..1]) == b[0] as nat;
    assert FromBytes(b[..2]) == FromBytes(b[..1]) * 0x100 + b[1] as nat;
    assert FromBytes(b[..3]) == FromBytes(b[..2]) * 0x100 + b[2] as nat;
    assert b[..4] == b;
  }

  /** And so it is written. */
  lemma PutWordIsBigEndian(x: uint32)
    ensures BigEndian(PutWord(x)) == x as nat
  {
    WordRoundTrip(x, PutWord(x), 0);
    GetWordIsBigEndian(PutWord(x), 0);
    assert PutWord(x)[0..4] == PutWord(x);
  }

  /** Words are compared as their bytes are, first byte first. */
  lemma PutWordOrder(x: uint32, y: uint32, i: nat)
    requires i < 4 && PutWord(x)[..i] == PutWord(y)[..i] && PutWord(x)[i] != PutWord(y)[i]
    ensures x < y <==> PutWord(x)[i] < PutWord(y)[i]
  {
    var a, b := PutWord(x), PutWord(y);
    PutWordIsBigEndian(x);
    PutWordIsBigEndian(y);
    forall j | 0 <= j < i ensures a[j] == b[j] {
      assert a[j] == a[..i][j] == b[..i][j];
    }
    if a[i] < b[i] {
      DigitOrder(a, b, i);
    } else {
      DigitOrder(b, a, i);
    }
  }

  lemma DigitOrder(a: seq<byte>, b: seq<byte>, i: nat)
    requires |a| == |b| == 4 && i < 4 && a[i] < b[i] && forall j | 0 <= j < i :: a[j] == b[j]
    ensures BigEndian(a) < BigEndian(b)
  {
  }

  // ----------------------------------------------------------------------------------------------
  // Entries and values
  // ----------------------------------------------------------------------------------------------


  /** The hash of a text. Nothing but equality of hashes matters for the layout, so it is a parameter. */
  type TextHash = seq<byte> -> uint32

  /** Packed: sixteen bytes in the file. */
  datatype LmoEntry = LmoEntry(keyId: uint32, valId: uint32, offset: uint32, length: uint32)

  function EntryBytes(e: LmoEntry): (s: seq<byte>)
    ensures |s| == 16
  {
    PutWord(e.keyId) + PutWord(e.valId) + PutWord(e.offset) + PutWord(e.length)
  }

  function IndexBytes(entries: seq<LmoEntry>): (s: seq<byte>)
    ensures |s| == 16 * |entries|
  {
    if entries == [] then [] else IndexBytes(entries[..|entries| - 1]) + EntryBytes(entries[|entries| - 1])
  }

  function GetEntry(s: seq<byte>, at: nat): LmoEntry
    requires at + 16 <= |s|
  {
    LmoEntry(GetWord(s, at), GetWord(s, at + 4), GetWord(s, at + 8), GetWord(s, at + 12))
  }

  lemma EntryRoundTrip(e: LmoEntry, s: seq<byte>, at: nat)
    requires At(s, at, EntryBytes(e))
    ensures GetEntry(s, at) == e
  {
    var a, b, c, d := PutWord(e.keyId), PutWord(e.valId), PutWord(e.offset), PutWord(e.length);
    assert EntryBytes(e) == [] + a + (b + c + d) == a + b + (c + d) == a + b + c + d == (a + b + c) + d + [];
    AtPart(s, at, [], a, b + c + d);
    AtPart(s, at, a, b, c + d);
    AtPart(s, at, a + b, c, d);
    AtPart(s, at, a + b + c, d, []);
    WordRoundTrip(e.keyId, s, at);
    WordRoundTrip(e.valId, s, at + 4);
    WordRoundTrip(e.offset, s, at + 8);
    WordRoundTrip(e.length, s, at + 12);
  }

  /** Every entry of the index stands at its place. */
  lemma {:induction false} IndexAt(entries: seq<LmoEntry>, m: nat)
    requires m < |entries|
    ensures At(IndexBytes(entries), 16 * m, EntryBytes(entries[m]))
  {
    var n := |entries| - 1;
    var init, last := IndexBytes(entries[..n]), EntryBytes(entries[n]);
    if m < n {
      IndexAt(entries[..n], m);
      AtLonger(init, last, 16 * m, EntryBytes(entries[m]));
    } else {
      assert IndexBytes(entries) == init + last + [];
      AtConcat(init, last, []);
    }
  }

  /** The entries of an index stand one after the other in the file. */
  ghost predicate HasIndex(file: seq<byte>, at: nat, entries: seq<LmoEntry>) {
    forall m | 0 <= m < |entries| :: At(file, at + 16 * m, EntryBytes(entries[m]))
  }

  lemma IndexInside(before: seq<byte>, entries: seq<LmoEntry>, after: seq<byte>)
    ensures HasIndex(before + IndexBytes(entries) + after, |before|, entries)
  {
    forall m | 0 <= m < |entries|
      ensures At(before + IndexBytes(entries) + after, |before| + 16 * m, EntryBytes(entries[m]))
    {
      IndexAt(entries, m);
      AtInside(before, IndexBytes(entries), after, 16 * m, EntryBytes(entries[m]));
    }
  }

  /** Bytes needed to reach a multiple of four. */
  function Padding(n: nat): (p: nat)
    ensures p < 4 && (n + p) % 4 == 0
  {
    (4 - n % 4) % 4
  }

  /** A value as it is written out of the zero-filled buffer. */
  function Padded(val: seq<byte>): (s: seq<byte>)
    ensures |s| % 4 == 0 && |s| >= |val|
  {
    val + Fill(NUL, Padding(|val|))
  }

  /** The values written and the entries recorded for the pairs. */
  datatype Layout = Layout(data: seq<byte>, entries: seq<LmoEntry>)

  /** A pair whose two texts hash alike is not stored. */
  predicate IsStored(h: TextHash, p: Pair) {
    h(p.0) != h(p.1)
  }

  function ToWord(n: nat): uint32 {
    if n < 0x1_0000_0000 then n as uint32 else 0
  }

  function LayOut(h: TextHash, pairs: seq<Pair>): Layout
    decreases |pairs|
  {
    if pairs == [] then Layout([], []) else
      var before := LayOut(h, pairs[..|pairs| - 1]);
      var p := pairs[|pairs| - 1];
      if IsStored(h, p) then AddValue(h, before, p) else before
  }

  lemma LayOutAppend(h: TextHash, pairs: seq<Pair>, p: Pair)
    ensures LayOut(h, pairs + [p])
            == if IsStored(h, p) then AddValue(h, LayOut(h, pairs), p) else LayOut(h, pairs)
  {
    assert (pairs + [p])[..|pairs|] == pairs;
  }

  function AddValue(h: TextHash, before: Layout, p: Pair): Layout {
    Layout(before.data + Padded(p.1),
           before.entries + [LmoEntry(h(p.0), h(p.1), ToWord(|before.data|), ToWord(|p.1|))])
  }

  /** The part of the file a value occupies, by the offset and length of its entry. */
  predicate InFile(e: LmoEntry, size: nat) {
    e.offset as nat + e.length as nat <= size
  }

  function Slice(file: seq<byte>, e: LmoEntry): seq<byte>
    requires InFile(e, |file|)
  {
    file[e.offset..e.offset as nat + e.length as nat]
  }

  /** The entry belongs to the pair: its hashes, and a 4-aligned, zero-padded copy of the value. */
  ghost predicate Stores(h: TextHash, data: seq<byte>, e: LmoEntry, p: Pair) {
    && IsStored(h, p) && e.keyId == h(p.0) && e.valId == h(p.1)
    && e.length as nat == |p.1| && e.offset % 4 == 0
    && At(data, e.offset as nat, Padded(p.1))
  }

  lemma StoresLonger(h: TextHash, data: seq<byte>, more: seq<byte>, e: LmoEntry, p: Pair)
    requires Stores(h, data, e, p)
    ensures Stores(h, data + more, e, p)
  {
    AtLonger(data, more, e.offset as nat, Padded(p.1));
  }

  /** The slice an entry names is the value. */
  lemma StoredSlice(h: TextHash, data: seq<byte>, more: seq<byte>, e: LmoEntry, p: Pair)
    requires Stores(h, data, e, p)
    ensures InFile(e, |data + more|) && Slice(data + more, e) == p.1
  {
    var pad := Fill(NUL, Padding(|p.1|));
    assert Padded(p.1) == [] + p.1 + pad;
    AtPart(data, e.offset as nat, [], p.1, pad);
    AtLonger(data, more, e.offset as nat, p.1);
  }

  ghost predicate HasPair(h: TextHash, data: seq<byte>, e: LmoEntry, pairs: seq<Pair>) {
    exists j :: 0 <= j < |pairs| && Stores(h, data, e, pairs[j])
  }

  ghost predicate HasEntry(h: TextHash, layout: Layout, p: Pair) {
    exists m :: 0 <= m < |layout.entries| && Stores(h, layout.data, layout.entries[m], p)
  }

  /** Every entry stores one of the pairs. */
  lemma {:induction false} EntriesArePairs(h: TextHash, pairs: seq<Pair>, m: nat)
    requires |LayOut(h, pairs).data| < 0x1_0000_0000 && m < |LayOut(h, pairs).entries|
    ensures HasPair(h, LayOut(h, pairs).data, LayOut(h, pairs).entries[m], pairs)
    decreases |pairs|
  {
    var n := |pairs| - 1;
    var before, p := LayOut(h, pairs[..n]), pairs[n];
    DataAligned(h, pairs[..n]);
    if m < |before.entries| {
      EntriesArePairs(h, pairs[..n], m);
      var j :| 0 <= j < n && Stores(h, before.data, before.entries[m], pairs[..n][j]);
      StoresLonger(h, before.data, Padded(p.1), before.entries[m], pairs[j]);
      assert Stores(h, LayOut(h, pairs).data, LayOut(h, pairs).entries[m], pairs[j]);
    } else {
      NewValueStored(h, before, p);
      assert Stores(h, LayOut(h, pairs).data, LayOut(h, pairs).entries[m], pairs[n]);
    }
  }

  /** Every pair whose hashes differ has its entry. */
  lemma {:induction false} PairsHaveEntries(h: TextHash, pairs: seq<Pair>, j: nat)
    requires |LayOut(h, pairs).data| < 0x1_0000_0000 && j < |pairs| && IsStored(h, pairs[j])
    ensures HasEntry(h, LayOut(h, pairs), pairs[j])
    decreases |pairs|
  {
    var n := |pairs| - 1;
    var before, p := LayOut(h, pairs[..n]), pairs[n];
    DataAligned(h, pairs[..n]);
    if j < n {
      assert pairs[..n][j] == pairs[j];
      PairsHaveEntries(h, pairs[..n], j);
      var m :| 0 <= m < |before.entries| && Stores(h, before.data, before.entries[m], pairs[j]);
      StoresLonger(h, before.data, Padded(p.1), before.entries[m], pairs[j]);
      assert Stores(h, LayOut(h, pairs).data, LayOut(h, pairs).entries[m], pairs[j]);
    } else {
      NewValueStored(h, before, p);
      assert Stores(h, LayOut(h, pairs).data, LayOut(h, pairs).entries[|before.entries|], p);
    }
  }

  lemma {:induction false} DataAligned(h: TextHash, pairs: seq<Pair>)
    ensures |LayOut(h, pairs).data| % 4 == 0
    decreases |pairs|
  {
    if pairs != [] {
      DataAligned(h, pairs[..|pairs| - 1]);
    }
  }

  lemma NewValueStored(h: TextHash, before: Layout, p: Pair)
    requires IsStored(h, p) && |before.data| % 4 == 0
    requires |before.data + Padded(p.1)| < 0x1_0000_0000
    ensures var lay := AddValue(h, before, p); Stores(h, lay.data, lay.entries[|before.entries|], p)
  {
    var lay := AddValue(h, before, p);
    assert lay.data == before.data + Padded(p.1) + [];
    AtConcat(before.data, Padded(p.1), []);
    assert lay.entries[|before.entries|] == LmoEntry(h(p.0), h(p.1), ToWord(|before.data|), ToWord(|p.1|));
  }

  /** The values follow one another without overlap: an entry ends, padding included, where the next
      one starts, and the last one at the end of the data. */
  lemma {:induction false} LayoutDisjoint(h: TextHash, pairs: seq<Pair>, i: nat, j: nat)
    requires |LayOut(h, pairs).data| < 0x1_0000_0000
    requires i < j < |LayOut(h, pairs).entries|
    ensures var es := LayOut(h, pairs).entries;
            es[i].offset as nat + es[i].length as nat + Padding(es[i].length as nat) <= es[j].offset as nat
    decreases |pairs|
  {
    var n := |pairs| - 1;
    var before, p, lay := LayOut(h, pairs[..n]), pairs[n], LayOut(h, pairs);
    if IsStored(h, p) && j == |before.entries| {
      EntriesArePairs(h, pairs[..n], i);
      var k :| 0 <= k < n && Stores(h, before.data, before.entries[i], pairs[..n][k]);
      assert lay.entries[i] == before.entries[i];
    } else {
      LayoutDisjoint(h, pairs[..n], i, j);
    }
  }

  // ----------------------------------------------------------------------------------------------
  // The file
  // ----------------------------------------------------------------------------------------------

  predicate SortedByKey(es: seq<LmoEntry>) {
    forall i, j | 0 <= i < j < |es| :: es[i].keyId <= es[j].keyId
  }

  /** What qsort() promises for `cmp_index`; equal keys may come in any order. */
  ghost predicate IsSorting(sorted: seq<LmoEntry>, es: seq<LmoEntry>) {
    SortedByKey(sorted) && multiset(sorted) == multiset(es)
  }

  function FileBytes(data: seq<byte>, sorted: seq<LmoEntry>): seq<byte> {
    data + IndexBytes(sorted) + PutWord(ToWord(|data|))
  }

  function FileSize(h: TextHash, pairs: seq<Pair>): nat {
    var lay := LayOut(h, pairs);
    |lay.data| + 16 * |lay.entries| + 4
  }

  /** The file kept for the pairs; none if no value was written. */
  ghost predicate IsCatalogueFile(h: TextHash, file: Option<seq<byte>>, pairs: seq<Pair>) {
    var lay := LayOut(h, pairs);
    if lay.data == [] then file == None
    else exists sorted :: IsSorting(sorted, lay.entries) && file == Some(FileBytes(lay.data, sorted))
  }

  /** The number at an offset. */
  function WordAt(file: seq<byte>, at: nat): nat
    requires at + 4 <= |file|
  {
    BigEndian(file[at..at + 4])
  }

  lemma FileParts(data: seq<byte>, sorted: seq<LmoEntry>)
    ensures var file := FileBytes(data, sorted);
            && |file| == |data| + 16 * |sorted| + 4 && file[..|data|] == data
            && file[|file| - 4..] == PutWord(ToWord(|data|))
  {
  }

  /** The file byte by byte: the values, the numbers of every entry one after the other, and behind them the
      size of the values. */
  lemma FileNumbers(data: seq<byte>, sorted: seq<LmoEntry>, m: nat)
    requires |data| < 0x1_0000_0000 && m < |sorted|
    ensures var file, at := FileBytes(data, sorted), |data| + 16 * m;
            && at + 16 <= |file|
            && WordAt(file, at) == sorted[m].keyId as nat && WordAt(file, at + 4) == sorted[m].valId as nat
            && WordAt(file, at + 8) == sorted[m].offset as nat && WordAt(file, at + 12) == sorted[m].length as nat
  {
    var file, at, e := FileBytes(data, sorted), |data| + 16 * m, sorted[m];
    FileParts(data, sorted);
    IndexInside(data, sorted, PutWord(ToWord(|data|)));
    EntryNumbers(e, file, at);
  }

  lemma EntryNumbers(e: LmoEntry, file: seq<byte>, at: nat)
    requires At(file, at, EntryBytes(e))
    ensures WordAt(file, at) == e.keyId as nat && WordAt(file, at + 4) == e.valId as nat
    ensures WordAt(file, at + 8) == e.offset as nat && WordAt(file, at + 12) == e.length as nat
  {
    var w := file[at..at + 16];
    assert w == EntryBytes(e);
    assert file[at..at + 4] == w[..4] == PutWord(e.keyId);
    assert file[at + 4..at + 8] == w[4..8] == PutWord(e.valId);
    assert file[at + 8..at + 12] == w[8..12] == PutWord(e.offset);
    assert file[at + 12..at + 16] == w[12..] == PutWord(e.length);
    PutWordIsBigEndian(e.keyId);
    PutWordIsBigEndian(e.valId);
    PutWordIsBigEndian(e.offset);
    PutWordIsBigEndian(e.length);
  }

  /** The trailer of a kept file is the size of the values in network order. */
  lemma TrailerIsSize(h: TextHash, file: Option<seq<byte>>, pairs: seq<Pair>)
    requires IsCatalogueFile(h, file, pairs) && file.Some? && FileSize(h, pairs) < 0x1_0000_0000
    ensures 4 <= |file.value| && WordAt(file.value, |file.value| - 4) == ValuesSize(h, pairs)
  {
    var lay := LayOut(h, pairs);
    var sorted :| IsSorting(sorted, lay.entries) && file == Some(FileBytes(lay.data, sorted));
    FileParts(lay.data, sorted);
    PutWordIsBigEndian(ToWord(|lay.data|));
    SizeOfValues(h, pairs);
  }

  /** The stored values take the next multiple of four bytes each. */
  function ValuesSize(h: TextHash, pairs: seq<Pair>): nat {
    if pairs == [] then 0 else
      var p := pairs[|pairs| - 1];
      ValuesSize(h, pairs[..|pairs| - 1]) + if h(p.0) != h(p.1) then (|p.1| + 3) / 4 * 4 else 0
  }

  lemma {:induction false} SizeOfValues(h: TextHash, pairs: seq<Pair>)
    ensures |LayOut(h, pairs).data| == ValuesSize(h, pairs)
    decreases |pairs|
  {
    if pairs != [] {
      SizeOfValues(h, pairs[..|pairs| - 1]);
    }
  }

  // ----------------------------------------------------------------------------------------------
  // lmo_open
  // ----------------------------------------------------------------------------------------------

  /** `length` entries of the mapped file from `index` on. */
  datatype Archive = Archive(mmap: seq<byte>, index: nat, length: nat)

  /** The index is not empty and lies inside the file. */
  predicate ValidIndex(ar: Archive) {
    1 <= ar.length < 0x1000_0000 && ar.index + 16 * ar.length <= |ar.mmap|
  }

  /** And so do the values. */
  ghost predicate ValidArchive(ar: Archive) {
    && ValidIndex(ar)
    && forall m | 0 <= m < ar.length :: InFile(EntryAt(ar, m), |ar.mmap|)
  }

  function EntryAt(ar: Archive, m: nat): LmoEntry
    requires m < ar.length && ar.index + 16 * ar.length <= |ar.mmap|
  {
    GetEntry(ar.mmap, ar.index + 16 * m)
  }

  /** The subtraction is on unsigned words; `size_t` has 32 bits. */
  function IndexLength(size: nat, idxOffset: nat): nat {
    (size - idxOffset - 4) % 0x1_0000_0000 / 16
  }

  /** `lmo_open`: an empty file cannot be mapped; of a shorter one than a trailer nothing is said. Whatever
      values and index make up the file are found again, and the index is inside the file unless the trailer
      points into itself. */
  method OpenArchive(file: seq<byte>) returns (ar: Option<Archive>)
    requires |file| == 0 || 4 <= |file| < 0x8000_0000
    ensures ar == Opened(file)
    ensures ar.None? <==> |file| == 0 || GetWord(file, |file| - 4) as nat >= |file|
    ensures forall data, sorted | file == FileBytes(data, sorted) :: ar == Some(Archive(file, |data|, |sorted|))
    ensures ar.Some? ==> (ar.value.index + 16 * ar.value.length <= |file| <==> ar.value.index + 4 <= |file|)
  {
    forall data, sorted | file == FileBytes(data, sorted)
      ensures Opened(file) == Some(Archive(file, |data|, |sorted|))
    {
      OpenWritten(file, data, sorted);
    }
    if |file| == 0 {
      return None;
    }
    var idxOffset := GetWord(file, |file| - 4) as nat;
    if idxOffset >= |file| {
      return None;
    }
    return Some(Archive(file, idxOffset, IndexLength(|file|, idxOffset)));
  }

  function Opened(file: seq<byte>): Option<Archive> {
    if |file| < 4 || GetWord(file, |file| - 4) as nat >= |file| then None
    else
      var idxOffset := GetWord(file, |file| - 4) as nat;
      Some(Archive(file, idxOffset, IndexLength(|file|, idxOffset)))
  }

  lemma TrailerReads(data: seq<byte>, sorted: seq<LmoEntry>)
    requires |data| < 0x1_0000_0000
    ensures var file := FileBytes(data, sorted); GetWord(file, |file| - 4) as nat == |data|
  {
    var file := FileBytes(data, sorted);
    var front, trailer := data + IndexBytes(sorted), PutWord(ToWord(|data|));
    assert file == front + trailer + [];
    AtConcat(front, trailer, []);
    WordRoundTrip(ToWord(|data|), file, |front|);
  }

  /** Opening a written file finds the index where it was put, with exactly the written entries. */
  lemma OpenWritten(file: seq<byte>, data: seq<byte>, sorted: seq<LmoEntry>)
    requires file == FileBytes(data, sorted) && |data| + 16 * |sorted| + 4 < 0x8000_0000
    ensures Opened(file) == Some(Archive(file, |data|, |sorted|))
    ensures |data| + 16 * |sorted| <= |file| && HasIndex(file, |data|, sorted)
  {
    TrailerReads(data, sorted);
    IndexInside(data, sorted, PutWord(ToWord(|data|)));
    assert |file| - |data| - 4 == 16 * |sorted|;
  }

  lemma ReadWritten(file: seq<byte>, at: nat, sorted: seq<LmoEntry>, m: nat)
    requires HasIndex(file, at, sorted) && at + 16 * |sorted| <= |file| && m < |sorted|
    ensures EntryAt(Archive(file, at, |sorted|), m) == sorted[m]
  {
    EntryRoundTrip(sorted[m], file, at + 16 * m);
  }
}
