/** The whole way of a text: from a PO file through the catalogue file to the translation. */
module Catalogue {
  import opened Bytes
  import opened Buffer
  import opened Words
  import opened KeyHash
  import opened PoReader
  import opened LmoFile
  import opened LmoLookup
  import opened LuaString
  import opened XmlText
  import opened Po2Lmo
  import opened TemplateSyntax
  import opened TemplateParser

  /** What opening a kept file gives: one archive, or none if there is no file. */
  function OpenedFile(file: Option<seq<byte>>): seq<Archive> {
    if file.None? then [] else
      var ar := Opened(file.value);
      if ar.None? then [] else [ar.value]
  }

  /** The archives of the files of a directory, in the order they are asked: the file read last comes first. */
  function Archives(files: seq<Option<seq<byte>>>): seq<Archive> {
    if files == [] then [] else OpenedFile(files[|files| - 1]) + Archives(files[..|files| - 1])
  }

  /** The archive of a written file: where its index is, and what the index holds. */
  ghost predicate IsWritten(ar: Archive, data: seq<byte>, sorted: seq<LmoEntry>) {
    && ar.index == |data| && ar.length == |sorted|
    && |data| + 16 * |sorted| <= |ar.mmap| && data <= ar.mmap
    && SortedByKey(sorted)
    && forall m | 0 <= m < |sorted| :: EntryAt(ar, m) == sorted[m]
  }

  lemma WrittenOpens(file: seq<byte>, data: seq<byte>, sorted: seq<LmoEntry>)
    requires file == FileBytes(data, sorted) && SortedByKey(sorted)
    requires |data| + 16 * |sorted| + 4 < 0x8000_0000
    ensures var ar := Archive(file, |data|, |sorted|);
            Opened(file) == Some(ar) && IsWritten(ar, data, sorted)
  {
    OpenWritten(file, data, sorted);
    forall m | 0 <= m < |sorted| ensures EntryAt(Archive(file, |data|, |sorted|), m) == sorted[m] {
      ReadWritten(file, |data|, sorted, m);
    }
  }

  /** The entries of the archive are entries of the layout. */
  lemma SortedEntryStored(h: TextHash, pairs: seq<Pair>, sorted: seq<LmoEntry>, m: nat)
    requires |LayOut(h, pairs).data| < 0x1_0000_0000
    requires multiset(sorted) == multiset(LayOut(h, pairs).entries) && m < |sorted|
    ensures HasPair(h, LayOut(h, pairs).data, sorted[m], pairs)
  {
    var entries := LayOut(h, pairs).entries;
    assert sorted[m] in multiset(sorted);
    assert sorted[m] in entries;
    var i :| 0 <= i < |entries| && entries[i] == sorted[m];
    EntriesArePairs(h, pairs, i);
  }

  lemma StoredPairSorted(h: TextHash, pairs: seq<Pair>, sorted: seq<LmoEntry>, j: nat) returns (m: nat)
    requires |LayOut(h, pairs).data| < 0x1_0000_0000
    requires multiset(sorted) == multiset(LayOut(h, pairs).entries)
    requires j < |pairs| && IsStored(h, pairs[j])
    ensures m < |sorted| && Stores(h, LayOut(h, pairs).data, sorted[m], pairs[j])
  {
    var lay := LayOut(h, pairs);
    PairsHaveEntries(h, pairs, j);
    var i :| 0 <= i < |lay.entries| && Stores(h, lay.data, lay.entries[i], pairs[j]);
    assert lay.entries[i] in multiset(lay.entries);
    assert lay.entries[i] in sorted;
    m :| 0 <= m < |sorted| && sorted[m] == lay.entries[i];
  }

  /** Entry `m` names the value of pair `j`. */
  ghost predicate Names(h: TextHash, ar: Archive, m: nat, p: Pair)
    requires m < ar.length && ar.index + 16 * ar.length <= |ar.mmap|
  {
    && IsStored(h, p) && EntryAt(ar, m).keyId == h(p.0)
    && InFile(EntryAt(ar, m), |ar.mmap|) && Slice(ar.mmap, EntryAt(ar, m)) == p.1
  }

  lemma WrittenNames(h: TextHash, ar: Archive, data: seq<byte>, sorted: seq<LmoEntry>, m: nat, p: Pair)
    requires IsWritten(ar, data, sorted) && m < |sorted| && Stores(h, data, sorted[m], p)
    ensures Names(h, ar, m, p)
  {
    assert ar.mmap == data + ar.mmap[|data|..];
    StoredSlice(h, data, ar.mmap[|data|..], sorted[m], p);
  }

  ghost predicate EntryNamed(h: TextHash, ar: Archive, m: nat, pairs: seq<Pair>)
    requires m < ar.length && ar.index + 16 * ar.length <= |ar.mmap|
  {
    exists j :: 0 <= j < |pairs| && Names(h, ar, m, pairs[j])
  }

  ghost predicate PairNamed(h: TextHash, ar: Archive, p: Pair)
    requires ar.index + 16 * ar.length <= |ar.mmap|
  {
    exists m :: 0 <= m < ar.length && Names(h, ar, m, p)
  }

  /** The archive serves the pairs: every entry names a stored pair, every stored pair has an entry, and the
      index is sorted. */
  ghost predicate Serves(h: TextHash, ar: Archive, pairs: seq<Pair>) {
    && ValidArchive(ar)
    && Ascending(Keys(ar))
    && (forall m | 0 <= m < ar.length :: EntryNamed(h, ar, m, pairs))
    && (forall j | 0 <= j < |pairs| && IsStored(h, pairs[j]) :: PairNamed(h, ar, pairs[j]))
  }

  lemma WrittenEntryNamed(h: TextHash, ar: Archive, pairs: seq<Pair>, sorted: seq<LmoEntry>, m: nat)
    requires |LayOut(h, pairs).data| < 0x1_0000_0000 && m < |sorted|
    requires IsWritten(ar, LayOut(h, pairs).data, sorted)
    requires multiset(sorted) == multiset(LayOut(h, pairs).entries)
    ensures EntryNamed(h, ar, m, pairs) && InFile(EntryAt(ar, m), |ar.mmap|)
  {
    var data := LayOut(h, pairs).data;
    SortedEntryStored(h, pairs, sorted, m);
    var j :| 0 <= j < |pairs| && Stores(h, data, sorted[m], pairs[j]);
    WrittenNames(h, ar, data, sorted, m, pairs[j]);
  }

  lemma WrittenPairNamed(h: TextHash, ar: Archive, pairs: seq<Pair>, sorted: seq<LmoEntry>, j: nat)
    requires |LayOut(h, pairs).data| < 0x1_0000_0000 && j < |pairs| && IsStored(h, pairs[j])
    requires IsWritten(ar, LayOut(h, pairs).data, sorted)
    requires multiset(sorted) == multiset(LayOut(h, pairs).entries)
    ensures PairNamed(h, ar, pairs[j])
  {
    var m := StoredPairSorted(h, pairs, sorted, j);
    WrittenNames(h, ar, LayOut(h, pairs).data, sorted, m, pairs[j]);
  }

  lemma WrittenServes(h: TextHash, ar: Archive, pairs: seq<Pair>, sorted: seq<LmoEntry>)
    requires FileSize(h, pairs) < 0x8000_0000
    requires IsWritten(ar, LayOut(h, pairs).data, sorted)
    requires multiset(sorted) == multiset(LayOut(h, pairs).entries) && sorted != []
    ensures Serves(h, ar, pairs)
  {
    assert |sorted| == |multiset(sorted)| == |LayOut(h, pairs).entries|;
    forall m | 0 <= m < ar.length ensures EntryNamed(h, ar, m, pairs) && InFile(EntryAt(ar, m), |ar.mmap|) {
      WrittenEntryNamed(h, ar, pairs, sorted, m);
    }
    forall j | 0 <= j < |pairs| && IsStored(h, pairs[j]) ensures PairNamed(h, ar, pairs[j]) {
      WrittenPairNamed(h, ar, pairs, sorted, j);
    }
    KeysAscend(ar, LayOut(h, pairs).data, sorted);
  }

  /** A kept file has entries: values are never empty. */
  lemma {:induction false} DataMeansEntries(h: TextHash, pairs: seq<Pair>)
    requires FullPairs(pairs)
    ensures LayOut(h, pairs).data == [] <==> LayOut(h, pairs).entries == []
    ensures LayOut(h, pairs).entries == [] <==> forall j | 0 <= j < |pairs| :: !IsStored(h, pairs[j])
    decreases |pairs|
  {
    if pairs != [] {
      var n := |pairs| - 1;
      DataMeansEntries(h, pairs[..n]);
      assert forall j | 0 <= j < n :: pairs[..n][j] == pairs[j];
      assert pairs[n].1 != [];
    }
  }

  lemma KeysAscend(ar: Archive, data: seq<byte>, sorted: seq<LmoEntry>)
    requires IsWritten(ar, data, sorted)
    ensures Ascending(Keys(ar))
    ensures forall m | 0 <= m < |sorted| :: Keys(ar)[m] == sorted[m].keyId
  {
    forall m | 0 <= m < |sorted| ensures Keys(ar)[m] == sorted[m].keyId {
      KeyIs(ar, ar.length, m);
    }
  }

  /** The value of a stored pair whose key has the hash; None exactly when no stored key has it. */
  ghost predicate Hits(h: TextHash, pairs: seq<Pair>, x: uint32, v: Option<seq<byte>>) {
    if v.Some? then
      exists j :: 0 <= j < |pairs| && IsStored(h, pairs[j]) && h(pairs[j].0) == x && pairs[j].1 == v.value
    else
      forall j | 0 <= j < |pairs| && IsStored(h, pairs[j]) :: h(pairs[j].0) != x
  }

  /** For any hash: a lookup in such an archive gives the value of a stored pair whose key has the sought
      hash, and gives nothing exactly when no stored key has it. */
  lemma LookupServed(h: TextHash, ar: Archive, pairs: seq<Pair>, x: uint32)
    requires Serves(h, ar, pairs)
    ensures Hits(h, pairs, x, Lookup([ar], x))
  {
    var e := Find(Keys(ar), x);
    LookupOne(ar, x);
    FindIff(Keys(ar), x);
    if e.Some? {
      KeyIs(ar, ar.length, e.value);
      assert EntryNamed(h, ar, e.value, pairs);
    } else {
      forall j | 0 <= j < |pairs| && IsStored(h, pairs[j]) ensures h(pairs[j].0) != x {
        assert PairNamed(h, ar, pairs[j]);
        var m :| 0 <= m < ar.length && Names(h, ar, m, pairs[j]);
        KeyIs(ar, ar.length, m);
        assert Keys(ar)[m] in Keys(ar);
      }
    }
  }

  lemma LookupOne(ar: Archive, x: uint32)
    requires ValidArchive(ar)
    ensures AllValid([ar])
    ensures var e := Find(Keys(ar), x);
            Lookup([ar], x) == if e.Some? then Some(ValueAt(ar, e.value)) else None
  {
    assert [ar][1..] == [];
  }

  // ----------------------------------------------------------------------------------------------
  // Several files
  // ----------------------------------------------------------------------------------------------

  /** The compiler's output for the pairs. */
  ghost predicate IsCompiled(h: TextHash, file: Option<seq<byte>>, pairs: seq<Pair>) {
    IsCatalogueFile(h, file, pairs) && FullPairs(pairs) && FileSize(h, pairs) < 0x8000_0000
  }

  ghost predicate AllCompiled(h: TextHash, files: seq<Option<seq<byte>>>, lists: seq<seq<Pair>>) {
    |files| == |lists| && forall i | 0 <= i < |lists| :: IsCompiled(h, files[i], lists[i])
  }

  lemma CompiledOpens(h: TextHash, pairs: seq<Pair>, file: Option<seq<byte>>) returns (ar: Archive)
    requires IsCompiled(h, file, pairs) && LayOut(h, pairs).data != []
    ensures OpenedFile(file) == [ar] && Serves(h, ar, pairs)
  {
    var lay := LayOut(h, pairs);
    DataMeansEntries(h, pairs);
    var sorted :| IsSorting(sorted, lay.entries) && file == Some(FileBytes(lay.data, sorted));
    assert |sorted| == |multiset(sorted)| == |lay.entries|;
    ar := Archive(file.value, |lay.data|, |sorted|);
    WrittenOpens(file.value, lay.data, sorted);
    WrittenServes(h, ar, pairs, sorted);
  }

  lemma CompiledHits(h: TextHash, pairs: seq<Pair>, file: Option<seq<byte>>, x: uint32)
    requires IsCompiled(h, file, pairs)
    ensures AllValid(OpenedFile(file)) && Hits(h, pairs, x, Lookup(OpenedFile(file), x))
  {
    if LayOut(h, pairs).data != [] {
      var ar := CompiledOpens(h, pairs, file);
      LookupServed(h, ar, pairs, x);
    } else {
      DataMeansEntries(h, pairs);
    }
  }

  ghost predicate HasHash(h: TextHash, pairs: seq<Pair>, x: uint32) {
    !Hits(h, pairs, x, None)
  }

  /** The file is the first one asked that stores a key with the hash. */
  ghost predicate FirstWithHash(h: TextHash, lists: seq<seq<Pair>>, i: nat, x: uint32) {
    i < |lists| && HasHash(h, lists[i], x) && forall a | i < a < |lists| :: !HasHash(h, lists[a], x)
  }

  /** A value that file stores under the hash; None exactly when no file stores one. */
  ghost predicate AllHits(h: TextHash, lists: seq<seq<Pair>>, x: uint32, v: Option<seq<byte>>) {
    if v.Some? then exists i :: 0 <= i < |lists| && FirstWithHash(h, lists, i, x) && Hits(h, lists[i], x, v)
    else forall i | 0 <= i < |lists| :: !HasHash(h, lists[i], x)
  }

  /** For any hash and any number of files: the first one asked that stores a key with the hash answers. */
  lemma {:induction false} LookupCompiled(h: TextHash, files: seq<Option<seq<byte>>>, lists: seq<seq<Pair>>, x: uint32)
    requires AllCompiled(h, files, lists)
    ensures AllValid(Archives(files)) && AllHits(h, lists, x, Lookup(Archives(files), x))
    decreases |lists|
  {
    if lists != [] {
      var n := |lists| - 1;
      CompiledHits(h, lists[n], files[n], x);
      LookupCompiled(h, files[..n], lists[..n], x);
      LookupFirst(OpenedFile(files[n]), Archives(files[..n]), x);
      OneMoreFile(h, lists, x, Lookup(OpenedFile(files[n]), x), Lookup(Archives(files[..n]), x));
    }
  }

  lemma OneMoreFile(h: TextHash, lists: seq<seq<Pair>>, x: uint32, v: Option<seq<byte>>, w: Option<seq<byte>>)
    requires lists != []
    requires var n := |lists| - 1; Hits(h, lists[n], x, v) && AllHits(h, lists[..n], x, w)
    ensures AllHits(h, lists, x, if v.Some? then v else w)
  {
    var n := |lists| - 1;
    assert forall i | 0 <= i < n :: lists[..n][i] == lists[i];
    if v.Some? {
      assert FirstWithHash(h, lists, n, x);
    } else if w.Some? {
      var i :| 0 <= i < n && FirstWithHash(h, lists[..n], i, x) && Hits(h, lists[..n][i], x, w);
      assert FirstWithHash(h, lists, i, x);
    }
  }

  // ----------------------------------------------------------------------------------------------
  // End to end
  // ----------------------------------------------------------------------------------------------

  /** A text of one of the pairs, or one more. */
  ghost predicate IsText(lists: seq<seq<Pair>>, extra: seq<byte>, s: seq<byte>) {
    || s == extra
    || exists i, j :: 0 <= i < |lists| && 0 <= j < |lists[i]| && (lists[i][j].0 == s || lists[i][j].1 == s)
  }

  /** The hash tells these texts apart. */
  ghost predicate Distinguishes(h: TextHash, lists: seq<seq<Pair>>, extra: seq<byte>) {
    forall s, t | IsText(lists, extra, s) && IsText(lists, extra, t) && h(s) == h(t) :: s == t
  }

  /** The pair gives the key a value of its own. */
  predicate Translates(p: Pair, k: seq<byte>, v: seq<byte>) {
    p.0 == k && p.1 == v && v != k
  }

  ghost predicate Gives(pairs: seq<Pair>, k: seq<byte>, v: seq<byte>) {
    exists j :: 0 <= j < |pairs| && Translates(pairs[j], k, v)
  }

  ghost predicate HasTranslation(pairs: seq<Pair>, k: seq<byte>) {
    exists j :: 0 <= j < |pairs| && Translates(pairs[j], k, pairs[j].1)
  }

  /** The file is the first one asked that translates the key. */
  ghost predicate FirstToTranslate(lists: seq<seq<Pair>>, i: nat, k: seq<byte>) {
    i < |lists| && HasTranslation(lists[i], k) && forall a | i < a < |lists| :: !HasTranslation(lists[a], k)
  }

  /** A value that file gives the key; None exactly when no file translates it. */
  ghost predicate Answers(lists: seq<seq<Pair>>, k: seq<byte>, v: Option<seq<byte>>) {
    if v.Some? then exists i :: 0 <= i < |lists| && FirstToTranslate(lists, i, k) && Gives(lists[i], k, v.value)
    else forall i | 0 <= i < |lists| :: !HasTranslation(lists[i], k)
  }

  /** If no two texts collide, a pair is stored under the hash of the text exactly when it translates it. */
  lemma StoredMeansTranslates(h: TextHash, lists: seq<seq<Pair>>, k: seq<byte>, i: nat, j: nat)
    requires Distinguishes(h, lists, k) && i < |lists| && j < |lists[i]|
    ensures var p := lists[i][j]; IsStored(h, p) && h(p.0) == h(k) <==> Translates(p, k, p.1)
  {
    var p := lists[i][j];
    assert IsText(lists, k, p.0) && IsText(lists, k, p.1) && IsText(lists, k, k);
  }

  lemma HitsGive(h: TextHash, lists: seq<seq<Pair>>, k: seq<byte>, i: nat)
    requires Distinguishes(h, lists, k) && i < |lists|
    ensures HasHash(h, lists[i], h(k)) <==> HasTranslation(lists[i], k)
    ensures forall v | Hits(h, lists[i], h(k), Some(v)) :: Gives(lists[i], k, v)
  {
    forall j | 0 <= j < |lists[i]|
      ensures IsStored(h, lists[i][j]) && h(lists[i][j].0) == h(k) <==> Translates(lists[i][j], k, lists[i][j].1)
    {
      StoredMeansTranslates(h, lists, k, i, j);
    }
  }

  lemma AllHitsAnswer(h: TextHash, lists: seq<seq<Pair>>, k: seq<byte>, v: Option<seq<byte>>)
    requires Distinguishes(h, lists, k) && AllHits(h, lists, h(k), v)
    ensures Answers(lists, k, v)
  {
    forall i | 0 <= i < |lists|
      ensures HasHash(h, lists[i], h(k)) <==> HasTranslation(lists[i], k)
      ensures v.Some? && Hits(h, lists[i], h(k), v) ==> Gives(lists[i], k, v.value)
    {
      HitsGive(h, lists, k, i);
    }
    if v.Some? {
      var i :| 0 <= i < |lists| && FirstWithHash(h, lists, i, h(k)) && Hits(h, lists[i], h(k), v);
      assert FirstToTranslate(lists, i, k);
    }
  }

  ghost function Catalogued(files: seq<Option<seq<byte>>>): Catalog {
    Some(Archives(files))
  }

  /** Looking up any text in the compiled files: the answer is a value that the first file asked that
      translates its canonical form gives it, and there is none exactly when no file does. A text that does
      not fit the buffer of the canonical form is looked up as the hash 0. */
  lemma TranslatedIs(files: seq<Option<seq<byte>>>, lists: seq<seq<Pair>>, key: seq<byte>)
    requires AllCompiled(Hash, files, lists)
    requires |key| < KEY_BUFFER ==> Distinguishes(Hash, lists, CanonText(key))
    ensures ValidCatalog(Catalogued(files))
    ensures var v := Translation(Catalogued(files), key);
            if |key| < KEY_BUFFER then Answers(lists, CanonText(key), v) else AllHits(Hash, lists, 0, v)
  {
    LookupCompiled(Hash, files, lists, CanonHash(key));
    if |key| < KEY_BUFFER {
      AllHitsAnswer(Hash, lists, CanonText(key), Translation(Catalogued(files), key));
    }
  }

  /** Pair `j` of file `i` decides about its key: the key is canonical, the file gives it no other value, no
      file asked before translates it and, if the pair itself does not, no file asked behind does. */
  ghost predicate Decides(lists: seq<seq<Pair>>, i: nat, j: nat) {
    && i < |lists| && j < |lists[i]|
    && var (k, v) := lists[i][j];
       && |k| < KEY_BUFFER && Canonical(k)
       && (forall b | 0 <= b < |lists[i]| && lists[i][b].0 == k :: lists[i][b].1 == v)
       && (forall a | i < a < |lists| :: !HasTranslation(lists[a], k))
       && (v == k ==> forall a | 0 <= a < i :: !HasTranslation(lists[a], k))
  }

  lemma DecidedAnswer(lists: seq<seq<Pair>>, i: nat, j: nat, v: Option<seq<byte>>)
    requires Decides(lists, i, j) && Answers(lists, lists[i][j].0, v)
    ensures lists[i][j].1 == if v.Some? then v.value else lists[i][j].0
  {
    var p := lists[i][j];
    if p.1 != p.0 {
      assert Translates(p, p.0, p.1);
      assert HasTranslation(lists[i], p.0);
    }
    if v.Some? {
      var w :| 0 <= w < |lists| && FirstToTranslate(lists, w, p.0) && Gives(lists[w], p.0, v.value);
      assert w == i;
    }
  }

  /** Such a msgid is translated to its msgstr, also when the entry was left out of the file because both
      are the same. */
  lemma MsgIdIsTranslated(files: seq<Option<seq<byte>>>, lists: seq<seq<Pair>>, i: nat, j: nat)
    requires AllCompiled(Hash, files, lists)
    requires Decides(lists, i, j) && Distinguishes(Hash, lists, lists[i][j].0)
    ensures ValidCatalog(Catalogued(files)) && Translated(Catalogued(files), lists[i][j].0) == lists[i][j].1
  {
    var k := lists[i][j].0;
    CanonTextIsJoin(k);
    TranslatedIs(files, lists, k);
    DecidedAnswer(lists, i, j, Translation(Catalogued(files), k));
  }

  /** A msgid whose msgstr is the same text stays as it is exactly if no file at all translates it: its entry
      is in no file, so even a file asked behind overrules it. */
  lemma SameTextKeptIff(files: seq<Option<seq<byte>>>, lists: seq<seq<Pair>>, key: seq<byte>)
    requires AllCompiled(Hash, files, lists)
    requires |key| < KEY_BUFFER && Canonical(key) && Distinguishes(Hash, lists, key)
    ensures ValidCatalog(Catalogued(files))
    ensures Translated(Catalogued(files), key) == key <==> forall i | 0 <= i < |lists| :: !HasTranslation(lists[i], key)
  {
    CanonTextIsJoin(key);
    TranslatedIs(files, lists, key);
  }

  /** A msgid with other whitespace is never found: the writer hashes the raw text, the reader the canonical
      one, and only a file that translates the canonical form answers. */
  lemma RaggedMsgIdIsLost(files: seq<Option<seq<byte>>>, lists: seq<seq<Pair>>, key: seq<byte>)
    requires AllCompiled(Hash, files, lists)
    requires |key| < KEY_BUFFER && !Canonical(key) && Distinguishes(Hash, lists, CanonText(key))
    ensures ValidCatalog(Catalogued(files))
    ensures Translation(Catalogued(files), key).None? <==>
            forall i | 0 <= i < |lists| :: !HasTranslation(lists[i], CanonText(key))
    ensures Translation(Catalogued(files), key).None? ==> Translated(Catalogued(files), key) == key
  {
    TranslatedIs(files, lists, key);
  }

  /** The pairs of the PO files. */
  function AllPairs(sources: seq<seq<seq<byte>>>): (lists: seq<seq<Pair>>)
    ensures |lists| == |sources|
    ensures forall i | 0 <= i < |lists| :: lists[i] == Collect(sources[i])
  {
    seq(|sources|, i requires 0 <= i < |sources| => Collect(sources[i]))
  }

  /** `lmo_load_catalog`: every archive that opens is put in front of the others. */
  method LoadCatalog(files: seq<Option<seq<byte>>>) returns (cat: Catalog)
    requires forall i | 0 <= i < |files| && files[i].Some? :: 4 <= |files[i].value| < 0x8000_0000
    ensures cat == Catalogued(files)
  {
    var archives := [];
    for i := 0 to |files|
      invariant archives == Archives(files[..i])
    {
      assert files[..i + 1][..i] == files[..i];
      if files[i].Some? {
        var ar := OpenArchive(files[i].value);
        if ar.Some? {
          archives := [ar.value] + archives;
        }
      }
    }
    assert files[..|files|] == files;
    cat := Some(archives);
  }

  lemma CompiledSize(h: TextHash, file: Option<seq<byte>>, pairs: seq<Pair>)
    requires IsCompiled(h, file, pairs) && file.Some?
    ensures 4 <= |file.value| < 0x8000_0000
  {
    var lay := LayOut(h, pairs);
    var sorted :| IsSorting(sorted, lay.entries) && file == Some(FileBytes(lay.data, sorted));
    assert |sorted| == |multiset(sorted)| == |lay.entries|;
  }

  /** The PO files of one language, compiled and loaded. */
  method CompileCatalog(sources: seq<seq<seq<byte>>>) returns (cat: Catalog)
    requires forall i | 0 <= i < |sources| ::
               AllFit(START, sources[i]) && FileSize(Hash, Collect(sources[i])) < 0x8000_0000
    ensures exists files :: AllCompiled(Hash, files, AllPairs(sources)) && cat == Catalogued(files)
  {
    var kept := [];
    for i := 0 to |sources|
      invariant |kept| == i
      invariant forall a | 0 <= a < i :: IsCompiled(Hash, kept[a], Collect(sources[a]))
    {
      CollectFullPairs(sources[i]);
      var file := Compile(sources[i]);
      kept := kept + [file];
    }
    forall i | 0 <= i < |kept| && kept[i].Some? ensures 4 <= |kept[i].value| < 0x8000_0000 {
      CompiledSize(Hash, kept[i], Collect(sources[i]));
    }
    cat := LoadCatalog(kept);
    assert AllCompiled(Hash, kept, AllPairs(sources));
  }

  /** From PO files to the literal in the generated Lua code: compile them, open them, translate the msgid of
      a collected pair, and emit the escape of its msgstr. */
  method CompileAndTranslate(sources: seq<seq<seq<byte>>>, i: nat, j: nat, out: TemplateBuffer, xml: bool)
    requires out.Valid()
    requires forall a | 0 <= a < |sources| ::
               AllFit(START, sources[a]) && FileSize(Hash, Collect(sources[a])) < 0x8000_0000
    requires Decides(AllPairs(sources), i, j) && Distinguishes(Hash, AllPairs(sources), AllPairs(sources)[i][j].0)
    modifies out, out.data
    ensures out.Valid() && (out.data == old(out.data) || fresh(out.data))
    ensures out.Contents() == old(out.Contents()) + EscapeLua(Collect(sources[i])[j].1, xml)
  {
    ghost var lists := AllPairs(sources);
    var cat := CompileCatalog(sources);
    ghost var files :| AllCompiled(Hash, files, lists) && cat == Catalogued(files);
    MsgIdIsTranslated(files, lists, i, j);
    AppendTranslated(out, cat, Collect(sources[i])[j].0, xml);
  }

  /** The same for a file given by its entries, with or without a line behind the last one. */
  method TranslateEntry(es: seq<PoEntry>, ends: seq<seq<byte>>, last: Option<PoEntry>, j: nat,
                        out: TemplateBuffer, xml: bool)
    requires |es| == |ends| && out.Valid()
    requires forall i | 0 <= i < |es| :: Accepted(es[i]) && EndsEntry(ends[i])
    requires last.Some? ==> Accepted(last.value)
    requires FileSize(Hash, Expected(WithLast(es, last))) < 0x8000_0000
    requires var lists := [Expected(WithLast(es, last))]; Decides(lists, 0, j) && Distinguishes(Hash, lists, lists[0][j].0)
    modifies out, out.data
    ensures out.Valid() && (out.data == old(out.data) || fresh(out.data))
    ensures out.Contents() == old(out.Contents()) + EscapeLua(Expected(WithLast(es, last))[j].1, xml)
  {
    var lines := FileLines(es, ends) + if last.Some? then EntryLines(last.value) else [];
    if last.Some? {
      CollectsOpenEntry(es, ends, last.value);
    } else {
      CollectsEntries(es, ends);
      assert lines == FileLines(es, ends);
    }
    assert AllPairs([lines]) == [Expected(WithLast(es, last))];
    CompileAndTranslate([lines], 0, j, out, xml);
  }

  function WithLast(es: seq<PoEntry>, last: Option<PoEntry>): seq<PoEntry> {
    if last.Some? then es + [last.value] else es
  }

  /** A message tag in a template: with the files loaded, the generated statement writes the entry's msgstr,
      escaped for XML unless the tag asks for the raw text, exactly if Lua can read it as a literal. */
  lemma MessageTagDenotes(files: seq<Option<seq<byte>>>, lists: seq<seq<Pair>>, i: nat, j: nat, raw: bool)
    requires AllCompiled(Hash, files, lists)
    requires Decides(lists, i, j) && Distinguishes(Hash, lists, lists[i][j].0)
    ensures ValidCatalog(Catalogued(files))
    ensures var (k, v) := lists[i][j];
            var text := if raw then v else EscapeXml(v);
            Denotes(Fragment(TranslatorOf(Catalogued(files)), Item(if raw then I18nRaw else I18n, k)), Write(text))
            <==> CR !in v
  {
    MsgIdIsTranslated(files, lists, i, j);
    assert IsCompiled(Hash, files[i], lists[i]);
    assert lists[i][j].0 != [];
    TagDenotes(TranslatorOf(Catalogued(files)), lists[i][j].0, lists[i][j].1, raw);
  }

  lemma TagDenotes(tr: Translator, key: seq<byte>, message: seq<byte>, raw: bool)
    requires key != [] && tr(key) == message
    ensures var tag := Item(if raw then I18nRaw else I18n, key);
            var text := if raw then message else EscapeXml(message);
            Denotes(Fragment(tr, tag), Write(text)) <==> CR !in message
  {
    FragmentDenotes(tr, Item(if raw then I18nRaw else I18n, key));
    EscapeXmlKeepsCr(message);
  }
}
