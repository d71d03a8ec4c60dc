/** 32-bit words and the hash of catalogue keys (template_lmo.c, `sfh_hash` and `lmo_canon_hash`). */
module KeyHash {
  import opened Bytes
  import opened Words

  newtype uint32 = x: int | 0 <= x < 0x1_0000_0000

  /** Sum of unsigned 32-bit words. */
  function Add(a: uint32, b: uint32): uint32 {
    var sum := a as int + b as int;
    (if sum < 0x1_0000_0000 then sum else sum - 0x1_0000_0000) as uint32
  }

  // ----------------------------------------------------------------------------------------------
  // sfh_hash
  // ----------------------------------------------------------------------------------------------

  /** (h << k) ^ x */
  function ShlXor(h: bv32, k: bv5, x: bv32): bv32 {
    (h << k) ^ x
  }

  /** h + (h >> k) */
  function AddShr(h: bv32, k: bv5): bv32 {
    h + (h >> k)
  }

  function AddWord(h: bv32, x: bv32): bv32 {
    h + x
  }

  /** A `char` promoted to `int` and used as an unsigned word; `char` is signed. */
  function Promote(c: byte): bv32 {
    if c < 0x80 then c as bv32 else c as bv32 | 0xFFFF_FF00
  }

  /** sfh_get16: little endian. */
  function Get16(lo: byte, hi: byte): bv32 {
    (hi as bv32 << 8) + lo as bv32
  }

  /** One turn of the main loop, on two 16-bit numbers. */
  function MixPair(hash: bv32, first: bv32, second: bv32): bv32 {
    var h := AddWord(hash, first);
    AddShr(ShlXor(h, 16, ShlXor(second, 11, h)), 11)
  }

  /** The main loop: four bytes a turn. */
  function MixBlocks(hash: bv32, d: seq<byte>): bv32
    decreases |d|
  {
    if |d| < 4 then hash else MixBlocks(MixPair(hash, Get16(d[0], d[1]), Get16(d[2], d[3])), d[4..])
  }

  /** The end cases. */
  function MixTail(hash: bv32, d: seq<byte>): bv32 {
    if |d| == 3 then
      var h := AddWord(hash, Get16(d[0], d[1]));
      AddShr(ShlXor(Promote(d[2]), 18, ShlXor(h, 16, h)), 11)
    else if |d| == 2 then
      var h := AddWord(hash, Get16(d[0], d[1]));
      AddShr(ShlXor(h, 11, h), 17)
    else if |d| == 1 then
      var h := AddWord(hash, Promote(d[0]));
      AddShr(ShlXor(h, 10, h), 1)
    else hash
  }

  function Avalanche(hash: bv32): bv32 {
    var a := AddShr(ShlXor(hash, 3, hash), 5);
    var b := AddShr(ShlXor(a, 4, a), 17);
    AddShr(ShlXor(b, 25, b), 6)
  }

  /** The length as the start value; a length is an `int` in the program, so longer texts do not occur. */
  function StartValue(n: nat): bv32 {
    if n < 0x8000_0000 then n as bv32 else 0
  }

  function HashBits(s: seq<byte>): bv32 {
    Avalanche(MixTail(MixBlocks(StartValue(|s|), s), s[|s| / 4 * 4..]))
  }

  function ToWord32(bits: bv32): uint32 {
    bits as uint32
  }

  function Hash(s: seq<byte>): uint32 {
    if s == [] then 0 else ToWord32(HashBits(s))
  }

  /** The main loop of `sfh_hash`, and the position of the bytes left over. */
  method MixLoop(s: seq<byte>, start: bv32) returns (hash: bv32, data: nat)
    ensures data == |s| / 4 * 4 && hash == MixBlocks(start, s)
  {
    hash := start;
    var len := |s| / 4;
    data := 0;
    ghost var stop := |s| / 4 * 4;
    assert 4 * len == stop && stop <= |s| < stop + 4 && s[0..] == s;
    while len > 0
      invariant len >= 0 && data + 4 * len == stop
      invariant MixBlocks(hash, s[data..]) == MixBlocks(start, s)
    {
      assert s[data..][4..] == s[data + 4..];
      hash := AddWord(hash, Get16(s[data], s[data + 1]));
      var tmp := ShlXor(Get16(s[data + 2], s[data + 3]), 11, hash);
      hash := ShlXor(hash, 16, tmp);
      data := data + 4;
      hash := AddShr(hash, 11);
      len := len - 1;
    }
  }

  /** The `switch` for the end cases. */
  method MixEnd(start: bv32, d: seq<byte>) returns (hash: bv32)
    requires |d| < 4
    ensures hash == MixTail(start, d)
  {
    hash := start;
    if |d| == 3 {
      hash := AddWord(hash, Get16(d[0], d[1]));
      hash := ShlXor(hash, 16, hash);
      hash := ShlXor(Promote(d[2]), 18, hash);
      hash := AddShr(hash, 11);
    } else if |d| == 2 {
      hash := AddWord(hash, Get16(d[0], d[1]));
      hash := ShlXor(hash, 11, hash);
      hash := AddShr(hash, 17);
    } else if |d| == 1 {
      hash := AddWord(hash, Promote(d[0]));
      hash := ShlXor(hash, 10, hash);
      hash := AddShr(hash, 1);
    }
  }

  /** `sfh_hash`: `len` is a positive `int` when it is used. */
  method SfhHash(s: seq<byte>) returns (hash: uint32)
    requires |s| < 0x8000_0000
    ensures hash == Hash(s)
  {
    if |s| <= 0 {
      return 0;
    }
    var bits, data := MixLoop(s, |s| as bv32);
    bits := MixEnd(bits, s[data..]);
    bits := ShlXor(bits, 3, bits);
    bits := AddShr(bits, 5);
    bits := ShlXor(bits, 4, bits);
    bits := AddShr(bits, 17);
    bits := ShlXor(bits, 25, bits);
    bits := AddShr(bits, 6);
    hash := ToWord32(bits);
  }

  // ----------------------------------------------------------------------------------------------
  // Canonical keys
  // ----------------------------------------------------------------------------------------------

  const KEY_BUFFER: nat := 4096

  /** What `lmo_canon_hash` computes: a key that does not fit its buffer hashes to 0. */
  function CanonHash(key: seq<byte>): uint32 {
    if |key| >= KEY_BUFFER then 0 else Hash(CanonText(key))
  }

  /** Where the buffer ends. */
  lemma CanonHashBound(key: seq<byte>)
    ensures CanonHash(key) == if |key| < 4096 then Hash(CanonText(key)) else 0
  {
  }

  /** `lmo_canon_hash` */
  method CanonHashOf(key: seq<byte>) returns (hash: uint32)
    ensures hash == CanonHash(key)
  {
    if |key| >= KEY_BUFFER {
      return 0;
    }
    var res := new byte[KEY_BUFFER];
    var ptr := CopyWords(key, res);
    hash := SfhHash(res[..ptr]);
  }

  /** `done` is what the loop has written for the first `off` bytes, with `prev` the byte before. */
  ghost predicate Copied(key: seq<byte>, off: nat, prev: byte, done: seq<byte>) {
    && off <= |key| && |done| <= off
    && done + Collapse(Blanked(key[off..]), if IsSpace(prev) then SPACE else prev) == Collapse(Blanked(key), SPACE)
  }

  lemma CopiedStep(key: seq<byte>, off: nat, prev: byte, done: seq<byte>)
    requires off < |key| && Copied(key, off, prev, done)
    ensures Copied(key, off + 1, key[off],
                   done + if !IsSpace(key[off]) then [key[off]] else if !IsSpace(prev) then [SPACE] else [])
  {
    assert done + [] == done;
    CanonStep(key, off, if IsSpace(prev) then SPACE else prev, done);
  }

  lemma CopiedEnds(key: seq<byte>, prev: byte, done: seq<byte>)
    ensures Copied(key, 0, SPACE, [])
    ensures Copied(key, |key|, prev, done) ==> TrimLast(done) == CanonText(key)
  {
    assert key[0..] == key && key[|key|..] == [];
    assert done + [] == done;
  }

  /** The body of the loop: a byte goes to `res`, or one space for a run of whitespace. */
  method CopyByte(c: byte, prev: byte, res: array<byte>, ptr: nat) returns (next: nat)
    requires ptr < res.Length
    modifies res
    ensures ptr <= next <= ptr + 1
    ensures res[..next] == old(res[..ptr]) + if !IsSpace(c) then [c] else if !IsSpace(prev) then [SPACE] else []
  {
    next := ptr;
    if IsSpace(c) {
      if !IsSpace(prev) {
        res[next] := SPACE;
        next := next + 1;
      }
    } else {
      res[next] := c;
      next := next + 1;
    }
  }

  /** One turn of the loop of `lmo_canon_hash`. */
  method CopyTurn(key: seq<byte>, off: nat, prev: byte, res: array<byte>, ptr: nat) returns (next: nat)
    requires off < |key| < res.Length && ptr <= off && Copied(key, off, prev, res[..ptr])
    modifies res
    ensures next <= off + 1 && Copied(key, off + 1, key[off], res[..next])
  {
    CopiedStep(key, off, prev, res[..ptr]);
    next := CopyByte(key[off], prev, res, ptr);
  }

  /** A space left over at the end is dropped. */
  method TrimCopy(res: array<byte>, ptr: nat) returns (next: nat)
    requires ptr <= res.Length
    ensures next <= ptr && res[..next] == TrimLast(res[..ptr])
  {
    next := ptr;
    if ptr > 0 && IsSpace(res[ptr - 1]) {
      next := ptr - 1;
      assert res[..next] == res[..ptr][..next];
    }
  }

  method FinishCopy(key: seq<byte>, prev: byte, res: array<byte>, ptr: nat) returns (next: nat)
    requires ptr <= res.Length && Copied(key, |key|, prev, res[..ptr])
    ensures next <= ptr && res[..next] == CanonText(key)
  {
    CopiedEnds(key, prev, res[..ptr]);
    next := TrimCopy(res, ptr);
  }

  /** The loop of `lmo_canon_hash`: the words are copied to `res` with single spaces between them. */
  method CopyWords(key: seq<byte>, res: array<byte>) returns (ptr: nat)
    requires |key| < res.Length
    modifies res
    ensures ptr <= |key| && res[..ptr] == CanonText(key)
  {
    var prev := SPACE;
    ptr := 0;
    var off: nat := 0;
    CopiedEnds(key, prev, []);
    while off < |key|
      invariant ptr <= off <= |key|
      invariant Copied(key, off, prev, res[..ptr])
    {
      ptr := CopyTurn(key, off, prev, res, ptr);
      prev := key[off];
      off := off + 1;
    }
    ptr := FinishCopy(key, prev, res, ptr);
  }

  lemma CanonStep(key: seq<byte>, off: nat, prev: byte, done: seq<byte>)
    requires off < |key| && (IsSpace(prev) ==> prev == SPACE)
    ensures var c := if IsSpace(key[off]) then SPACE else key[off];
            (if IsSpace(c) && IsSpace(prev) then done else done + [c]) + Collapse(Blanked(key[off + 1..]), c)
            == done + Collapse(Blanked(key[off..]), prev)
  {
    assert key[off..][1..] == key[off + 1..];
    BlankedTail(key[off..]);
  }

  /** Keys with the same words hash alike. */
  lemma SameWordsSameHash(a: seq<byte>, b: seq<byte>)
    requires |a| < KEY_BUFFER && |b| < KEY_BUFFER && Words.Words(a) == Words.Words(b)
    ensures CanonHash(a) == CanonHash(b)
  {
    SameCanonText(a, b);
  }

  /** On keys that are their words joined by single spaces, and only the writer's raw hash of such a key,
      the reader computes what the writer stored. */
  lemma CanonicalKeyHash(key: seq<byte>)
    requires |key| < KEY_BUFFER && Canonical(key)
    ensures CanonHash(key) == Hash(key)
  {
    CanonTextIsJoin(key);
  }
}
