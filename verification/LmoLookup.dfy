/** Looking up a text: the index search, the archives of a catalogue, and `luastr_translate`
    (template_lmo.c, template_utils.c). */
module LmoLookup {
  import opened Bytes
  import opened Buffer
  import opened KeyHash
  import opened LmoFile
  import opened LuaString

  /** The key ids of the first `n` entries of the index, in order. */
  function KeysUpTo(ar: Archive, n: nat): (keys: seq<uint32>)
    requires n <= ar.length && ar.index + 16 * ar.length <= |ar.mmap|
    ensures |keys| == n
  {
    if n == 0 then [] else KeysUpTo(ar, n - 1) + [EntryAt(ar, n - 1).keyId]
  }

  function Keys(ar: Archive): (keys: seq<uint32>)
    requires ar.index + 16 * ar.length <= |ar.mmap|
    ensures |keys| == ar.length
  {
    KeysUpTo(ar, ar.length)
  }

  lemma {:induction false} KeyIs(ar: Archive, n: nat, m: nat)
    requires m < n <= ar.length && ar.index + 16 * ar.length <= |ar.mmap|
    ensures KeysUpTo(ar, n)[m] == EntryAt(ar, m).keyId
  {
    if m < n - 1 {
      KeyIs(ar, n - 1, m);
    }
  }

  /** The search on unbounded integers, between `l` and `r` inclusive. */
  function Search(keys: seq<uint32>, hash: uint32, l: int, r: int): (m: Option<nat>)
    requires 0 <= l && r < |keys|
    ensures m.Some? ==> l <= m.value <= r && keys[m.value] == hash
    decreases r - l
  {
    if r < l then None else
      var m := l + (r - l) / 2;
      if keys[m] == hash then Some(m)
      else if keys[m] > hash then Search(keys, hash, l, m - 1)
      else Search(keys, hash, m + 1, r)
  }

  function Find(keys: seq<uint32>, hash: uint32): (m: Option<nat>)
    ensures m.Some? ==> m.value < |keys| && keys[m.value] == hash
  {
    Search(keys, hash, 0, |keys| - 1)
  }

  /** a - b on unsigned words */
  function Sub(a: uint32, b: uint32): uint32 {
    if a >= b then a - b else ((0x1_0000_0000 - b as int) + a as int) as uint32
  }

  /** ntohl(ar->index[m].key_id) */
  method ReadKey(ar: Archive, m: nat) returns (k: uint32)
    requires ValidIndex(ar) && m < ar.length
    ensures k == Keys(ar)[m]
  {
    KeyIs(ar, ar.length, m);
    k := EntryAt(ar, m).keyId;
  }

  /** With `r < l` the sum wraps around. */
  lemma MidPoint(l: uint32, r: uint32)
    requires l <= r
    ensures Add(l, Sub(r, l) / 2) as int == l as int + (r as int - l as int) / 2
  {
  }

  lemma SearchStep(keys: seq<uint32>, hash: uint32, l: int, r: int, m: int)
    requires 0 <= l <= r < |keys| && m == l + (r - l) / 2
    ensures l <= m <= r
    ensures Search(keys, hash, l, r)
            == if keys[m] == hash then Some(m)
               else if keys[m] > hash then Search(keys, hash, l, m - 1) else Search(keys, hash, m + 1, r)
  {
  }

  /** One probe with `l <= r`: the entry, or the bounds that are left; `stop` if there is nothing below the
      first entry. */
  method Probe(ar: Archive, hash: uint32, l: uint32, r: uint32, m: uint32)
    returns (found: bool, stop: bool, newL: uint32, newR: uint32)
    requires ValidIndex(ar) && l <= r && r as int < ar.length && m as int == l as int + (r as int - l as int) / 2
    ensures found ==> Search(Keys(ar), hash, l as int, r as int) == Some(m as nat)
    ensures stop ==> Search(Keys(ar), hash, l as int, r as int) == None
    ensures !found && !stop ==>
              && newL as int <= newR as int + 1 && newR <= r
              && newR as int - newL as int < r as int - l as int
              && Search(Keys(ar), hash, newL as int, newR as int) == Search(Keys(ar), hash, l as int, r as int)
  {
    SearchStep(Keys(ar), hash, l as int, r as int, m as int);
    found, stop, newL, newR := false, false, l, r;
    var k := ReadKey(ar, m as nat);
    if k == hash {
      found := true;
    } else if k > hash {
      if m == 0 {
        stop := true;
      } else {
        newR := m - 1;
      }
    } else {
      newL := m + 1;
    }
  }

  /** `lmo_find_entry`. All variables are unsigned words. The midpoint is computed before the test that
      ends the search; with `r < l` it wraps around and is not used. */
  method FindEntry(ar: Archive, hash: uint32) returns (e: Option<nat>)
    requires ValidIndex(ar)
    ensures e == Find(Keys(ar), hash)
  {
    var l: uint32 := 0;
    var r := Sub(ar.length as uint32, 1);
    while true
      invariant l as int <= r as int + 1 && r as int < ar.length
      invariant Search(Keys(ar), hash, l as int, r as int) == Find(Keys(ar), hash)
      decreases r as int - l as int + 1
    {
      var m := Add(l, Sub(r, l) / 2);
      if r < l {
        break;
      }
      MidPoint(l, r);
      var found, stop;
      found, stop, l, r := Probe(ar, hash, l, r, m);
      if found {
        return Some(m as nat);
      }
      if stop {
        break;
      }
    }
    return None;
  }

  predicate Ascending(keys: seq<uint32>) {
    forall i, j | 0 <= i < j < |keys| :: keys[i] <= keys[j]
  }

  lemma {:induction false} SearchMisses(keys: seq<uint32>, hash: uint32, l: int, r: int)
    requires Ascending(keys)
    requires 0 <= l && r < |keys| && Search(keys, hash, l, r) == None
    ensures forall i | l <= i <= r :: keys[i] != hash
    decreases r - l
  {
    if l <= r {
      var m := l + (r - l) / 2;
      if keys[m] > hash {
        SearchMisses(keys, hash, l, m - 1);
      } else {
        SearchMisses(keys, hash, m + 1, r);
      }
    }
  }

  /** On a sorted index the search finds an entry with the hash exactly when there is one. */
  lemma FindIff(keys: seq<uint32>, hash: uint32)
    requires Ascending(keys)
    ensures Find(keys, hash).Some? <==> hash in keys
  {
    if Find(keys, hash).None? {
      SearchMisses(keys, hash, 0, |keys| - 1);
    }
  }

  // ----------------------------------------------------------------------------------------------
  // Catalogues
  // ----------------------------------------------------------------------------------------------

  /** The archives of the active catalogue; None if no catalogue is active. */
  type Catalog = Option<seq<Archive>>

  ghost predicate AllValid(archives: seq<Archive>) {
    forall i | 0 <= i < |archives| :: ValidArchive(archives[i])
  }

  ghost predicate ValidCatalog(cat: Catalog) {
    cat.Some? ==> AllValid(cat.value)
  }

  /** The bytes at the offset and length of an entry. */
  function ValueAt(ar: Archive, m: nat): seq<byte>
    requires ValidArchive(ar) && m < ar.length
  {
    Slice(ar.mmap, EntryAt(ar, m))
  }

  /** The value in the first archive that has the hash. */
  ghost function Lookup(archives: seq<Archive>, hash: uint32): Option<seq<byte>>
    requires AllValid(archives)
  {
    if archives == [] then None else
      assert ValidArchive(archives[0]);
      var e := Find(Keys(archives[0]), hash);
      if e.Some? then Some(ValueAt(archives[0], e.value))
      else Lookup(archives[1..], hash)
  }

  /** Archives are asked in order, and the first one that knows the hash answers. */
  lemma {:induction false} LookupFirst(a: seq<Archive>, b: seq<Archive>, hash: uint32)
    requires AllValid(a) && AllValid(b)
    ensures AllValid(a + b)
    ensures Lookup(a + b, hash) == if Lookup(a, hash).Some? then Lookup(a, hash) else Lookup(b, hash)
  {
    if a == [] {
      assert a + b == b;
    } else {
      assert (a + b)[0] == a[0] && (a + b)[1..] == a[1..] + b;
      LookupFirst(a[1..], b, hash);
    }
  }

  ghost function Translation(cat: Catalog, key: seq<byte>): Option<seq<byte>>
    requires ValidCatalog(cat)
  {
    if cat.None? then None else Lookup(cat.value, CanonHash(key))
  }

  /** `lmo_translate` */
  method Translate(cat: Catalog, key: seq<byte>) returns (tr: Option<seq<byte>>)
    requires ValidCatalog(cat)
    ensures tr == Translation(cat, key)
  {
    if cat.None? {
      return None;
    }
    var archives := cat.value;
    var hash := CanonHashOf(key);
    var i := 0;
    assert archives[0..] == archives;
    while i < |archives|
      invariant 0 <= i <= |archives|
      invariant Lookup(archives[i..], hash) == Lookup(archives, hash)
    {
      assert archives[i..][1..] == archives[i + 1..];
      var ar := archives[i];
      var e := FindEntry(ar, hash);
      if e.Some? {
        return Some(ValueAt(ar, e.value));
      }
      i := i + 1;
    }
    return None;
  }

  /** The text itself stands in for a translation that is not there. */
  ghost function Translated(cat: Catalog, s: seq<byte>): seq<byte>
    requires ValidCatalog(cat)
  {
    var tr := Translation(cat, s);
    if tr.Some? then tr.value else s
  }

  /** `luastr_translate` */
  method AppendTranslated(out: TemplateBuffer, cat: Catalog, s: seq<byte>, xml: bool)
    requires out.Valid() && ValidCatalog(cat)
    modifies out, out.data
    ensures out.Valid() && (out.data == old(out.data) || fresh(out.data))
    ensures out.Contents() == old(out.Contents()) + EscapeLua(Translated(cat, s), xml)
  {
    var tr := Translate(cat, s);
    if tr.Some? {
      AppendEscaped(out, tr.value, xml);
    } else {
      AppendEscaped(out, s, xml);
    }
  }
}
