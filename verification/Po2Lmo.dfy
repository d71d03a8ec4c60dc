/** The compiler `main` (po2lmo.c): from the lines of a PO file to the bytes of a catalogue file. */
module Po2Lmo {
  import opened Bytes
  import opened KeyHash
  import opened PoQuoting
  import opened PoReader
  import opened LmoFile

  /** The buffer holds the text and zeros behind it. */
  ghost predicate ZeroFilled(mem: seq<byte>, text: seq<byte>) {
    && |text| < |mem|
    && NUL !in text
    && mem[..|text|] == text
    && forall i | |text| <= i < |mem| :: mem[i] == NUL
  }

  lemma ZeroFilledLength(mem: seq<byte>, text: seq<byte>)
    requires ZeroFilled(mem, text)
    ensures StrLen(mem) == |text|
  {
    forall i | 0 <= i < |text| ensures mem[i] != NUL {
      assert text[i] in text;
    }
    StrLenIs(mem, |text|);
  }

  /** qsort() with `cmp_index`, of which only the result matters: insertion into a sorted list. */
  method Qsort(es: seq<LmoEntry>) returns (sorted: seq<LmoEntry>)
    ensures IsSorting(sorted, es)
  {
    sorted := [];
    for i := 0 to |es|
      invariant IsSorting(sorted, es[..i])
    {
      assert es[..i + 1] == es[..i] + [es[i]];
      sorted := Insert(sorted, es[i]);
    }
    assert es[..|es|] == es;
  }

  method Insert(es: seq<LmoEntry>, e: LmoEntry) returns (sorted: seq<LmoEntry>)
    requires SortedByKey(es)
    ensures SortedByKey(sorted) && multiset(sorted) == multiset(es) + multiset{e}
  {
    var j := |es|;
    while j > 0 && es[j - 1].keyId > e.keyId
      invariant 0 <= j <= |es|
      invariant j < |es| ==> es[j].keyId > e.keyId
    {
      j := j - 1;
    }
    sorted := es[..j] + [e] + es[j..];
    InsertedSorted(es, e, j, sorted);
    InsertedElements(es, e, j);
  }

  lemma InsertedElements(es: seq<LmoEntry>, e: LmoEntry, j: nat)
    requires j <= |es|
    ensures multiset(es[..j] + [e] + es[j..]) == multiset(es) + multiset{e}
  {
    assert es == es[..j] + es[j..];
  }

  lemma InsertedSorted(es: seq<LmoEntry>, e: LmoEntry, j: nat, sorted: seq<LmoEntry>)
    requires SortedByKey(es) && j <= |es| && sorted == es[..j] + [e] + es[j..]
    requires j > 0 ==> es[j - 1].keyId <= e.keyId
    requires j < |es| ==> e.keyId <= es[j].keyId
    ensures SortedByKey(sorted)
  {
    forall a, b | 0 <= a < b < |sorted| ensures sorted[a].keyId <= sorted[b].keyId {
      assert a < j ==> sorted[a] == es[a];
      assert a > j ==> sorted[a] == es[a - 1];
      assert b < j ==> sorted[b] == es[b];
      assert b > j ==> sorted[b] == es[b - 1];
    }
  }

  /** The variables of `main`. */
  class Compiler {
    const key: array<byte>
    const val: array<byte>
    const tmp: array<byte>
    var state: nat
    var offset: nat
    var nEntries: nat
    var entries: seq<LmoEntry>
    var out: seq<byte>            // the bytes written to the output file
    ghost var keyText: seq<byte>
    ghost var valText: seq<byte>
    ghost var tmpText: seq<byte>  // the part of `tmp` that was written
    ghost var pairs: seq<Pair>

    ghost predicate Valid()
      reads this, key, val, tmp
    {
      && key.Length == val.Length == tmp.Length == LINE_BUFFER
      && key != val && key != tmp && val != tmp
      && state <= 3
      && ZeroFilled(key[..], keyText) && ZeroFilled(val[..], valText)
      && tmpText <= tmp[..]
      && Stored(Hash)
    }

    ghost function Model(): PoState
      reads this
    {
      PoState(state, keyText, valText, pairs, tmpText)
    }

    constructor ()
      ensures Valid() && Model() == START && fresh(key) && fresh(val) && fresh(tmp)
    {
      key := new byte[LINE_BUFFER](_ => 0);
      val := new byte[LINE_BUFFER](_ => 0);
      tmp := new byte[LINE_BUFFER];
      state, offset, nEntries := 0, 0, 0;
      entries, out := [], [];
      keyText, valText, tmpText, pairs := [], [], [], [];
    }

    /** extract_string into a zero-filled buffer. */
    method ExtractFresh(line: seq<byte>, dest: array<byte>) returns (r: int)
      requires IsLine(line) && dest.Length == LINE_BUFFER && ZeroFilled(dest[..], [])
      modifies dest
      ensures Extract(line).None? ==> r == -1 && dest[..] == old(dest[..])
      ensures Extract(line).Some? ==>
                var text := Extract(line).value.text; r == |text| && ZeroFilled(dest[..], text)
    {
      assert Seen(line, LINE_BUFFER) == line;
      ghost var was := dest[..];
      r := ExtractString(line, dest, LINE_BUFFER);
      if Extract(line).Some? {
        ghost var text := Extract(line).value.text;
        ExtractedNoNul(line);
        assert dest[..][..|text|] == text;
        assert forall i | |text| <= i < LINE_BUFFER :: dest[..][i] == NUL;
        ZeroFilledLength(dest[..], text);
      }
    }

    /** strcat(): `tmp` holds a terminated text. */
    method StrCat(dest: array<byte>, ghost was: seq<byte>, ghost text: seq<byte>)
      requires dest != tmp && dest.Length == LINE_BUFFER && ZeroFilled(dest[..], was)
      requires HoldsString(tmp[..], text) && NUL !in text && |was| + |text| < LINE_BUFFER
      modifies dest
      ensures ZeroFilled(dest[..], was + text)
    {
      ZeroFilledLength(dest[..], was);
      forall i | 0 <= i < |text| ensures tmp[..][i] != NUL {
        assert text[i] in text && tmp[..][..|text|][i] == tmp[..][i];
      }
      StrLenIs(tmp[..], |text|);
      var at, n := StrLen(dest[..]), StrLen(tmp[..]);
      assert tmp[..n] == text;
      forall i | 0 <= i < n {
        dest[at + i] := tmp[i];
      }
      assert dest[..at + n] == was + text;
    }

    /** A continuation line: its text goes through `tmp` to the end of `dest`. Without a closing quote what
        an earlier line left in `tmp` goes with it. */
    method Continue(line: seq<byte>, dest: array<byte>, ghost was: seq<byte>, ghost known: seq<byte>) returns (r: int)
      requires IsLine(line) && tmp.Length == dest.Length == LINE_BUFFER && dest != tmp && ZeroFilled(dest[..], was)
      requires known <= tmp[..]
      requires var q := Extract(line);
               q.Some? ==> NUL in Left(q.value, known) && |was| + |CString(Left(q.value, known))| < LINE_BUFFER
      modifies tmp, dest
      ensures r == -1 <==> Extract(line).None?
      ensures Extract(line).None? ==> ZeroFilled(dest[..], was) && known <= tmp[..]
      ensures Extract(line).Some? ==>
                var now := Left(Extract(line).value, known); now <= tmp[..] && ZeroFilled(dest[..], was + CString(now))
    {
      assert Seen(line, LINE_BUFFER) == line;
      ghost var before := tmp[..];
      r := ExtractString(line, tmp, LINE_BUFFER);
      if r != -1 {
        LeftInMemory(Extract(line).value, before, known);
        StrCat(dest, was, CString(Left(Extract(line).value, known)));
      }
    }

    /** A line below the msgid line. */
    method ContinueKey(line: seq<byte>) returns (r: int)
      requires Valid() && state == 1 && Continues(Model(), line) && Fits(Model(), line)
      modifies this`keyText, this`tmpText, key, tmp
      ensures Valid() && (r == -1 <==> Extract(line).None?)
      ensures Extract(line).None? ==> keyText == old(keyText) && tmpText == old(tmpText)
      ensures Extract(line).Some? ==>
                tmpText == Left(Extract(line).value, old(tmpText)) && keyText == old(keyText) + CString(tmpText)
    {
      r := Continue(line, key, keyText, tmpText);
      if r != -1 {
        tmpText := Left(Extract(line).value, tmpText);
        keyText := keyText + CString(tmpText);
      }
    }

    /** A line below the msgstr line. */
    method ContinueVal(line: seq<byte>) returns (r: int)
      requires Valid() && state == 3 && Fits(Model(), line)
      modifies this`valText, this`tmpText, val, tmp
      ensures Valid() && (r == -1 <==> Extract(line).None?)
      ensures Extract(line).None? ==> valText == old(valText) && tmpText == old(tmpText)
      ensures Extract(line).Some? ==>
                tmpText == Left(Extract(line).value, old(tmpText)) && valText == old(valText) + CString(tmpText)
    {
      r := Continue(line, val, valText, tmpText);
      if r != -1 {
        tmpText := Left(Extract(line).value, tmpText);
        valText := valText + CString(tmpText);
      }
    }

    /** memset() of a text buffer. */
    method Clear(mem: array<byte>)
      requires mem.Length == LINE_BUFFER
      modifies mem
      ensures ZeroFilled(mem[..], [])
    {
      forall i | 0 <= i < mem.Length {
        mem[i] := NUL;
      }
    }

    /** The block of state 4: a pair with two sides is written unless both hash alike. */
    method FlushEntry()
      requires Valid()
      modifies this, key, val
      ensures Valid() && Model() == Flush(old(Model()))
    {
      WriteFullEntry();
      ClearTexts();
    }

    method WriteFullEntry()
      requires Valid()
      modifies this`nEntries, this`entries, this`out, this`offset, this`pairs
      ensures Valid() && pairs == Flush(old(Model())).pairs
    {
      ZeroFilledLength(key[..], keyText);
      ZeroFilledLength(val[..], valText);
      if StrLen(key[..]) > 0 && StrLen(val[..]) > 0 {
        WriteEntry();
      }
    }

    method ClearTexts()
      requires Valid()
      modifies this`state, this`keyText, this`valText, key, val
      ensures Valid() && Model() == old(Model()).(state := 0, key := [], val := [])
    {
      state := 0;
      Clear(key);
      Clear(val);
      keyText, valText := [], [];
    }

    method WriteEntry()
      requires Valid()
      modifies this`nEntries, this`entries, this`out, this`offset, this`pairs
      ensures Valid() && pairs == old(pairs) + [(keyText, valText)]
    {
      ZeroFilledLength(key[..], keyText);
      ZeroFilledLength(val[..], valText);
      var keyId := SfhHash(key[..StrLen(key[..])]);
      var valId := SfhHash(val[..StrLen(val[..])]);
      StorePair(Hash, keyId, valId);
    }

    /** Valid() with any hash in the place of sfh_hash. */
    ghost predicate Stored(h: TextHash)
      reads this
    {
      Layout(out, entries) == LayOut(h, pairs) && offset == |out| && nEntries == |entries|
    }

    method StorePair(ghost h: TextHash, keyId: uint32, valId: uint32)
      requires Stored(h) && ZeroFilled(val[..], valText) && val.Length == LINE_BUFFER
      requires keyId == h(keyText) && valId == h(valText)
      modifies this`nEntries, this`entries, this`out, this`offset, this`pairs
      ensures Stored(h) && pairs == old(pairs) + [(keyText, valText)]
    {
      ZeroFilledLength(val[..], valText);
      LayOutAppend(h, pairs, (keyText, valText));
      if keyId != valId {
        nEntries := nEntries + 1;
        entries := entries + [LmoEntry(keyId, valId, ToWord(offset), ToWord(StrLen(val[..])))];
        var length := StrLen(val[..]) + (4 - StrLen(val[..]) % 4) % 4;
        PaddedInBuffer(val[..], valText);
        out := out + val[..length];
        offset := offset + length;
      }
      pairs := pairs + [(keyText, valText)];
    }

    /** The body of the loop, for one line. */
    method ProcessLine(line: seq<byte>)
      requires Valid() && Fits(Model(), line)
      requires state == 0 ==> keyText == [] && valText == []
      requires state <= 2 ==> valText == []
      modifies this, key, val, tmp
      ensures Valid() && Model() == Step(old(Model()), line)
      ensures state == 0 ==> keyText == [] && valText == []
      ensures state <= 2 ==> valText == []
    {
      var flush := false;
      if state == 0 && IsMsgId(line) {
        MsgIdHasText(line);
        var r := ExtractFresh(line, key);
        keyText := Extract(line).value.text;
        state := if r == 0 then 1 else 2;
      } else if state == 1 || state == 2 {
        if IsMsgStr(line) || state == 2 {
          var r := ExtractFresh(line, val);
          if r == -1 {
            flush := true;
          } else {
            valText := Extract(line).value.text;
            state := 3;
          }
        } else {
          var r := ContinueKey(line);
          if r == -1 {
            state := 2;
          }
        }
      } else if state == 3 {
        var r := ContinueVal(line);
        if r == -1 {
          flush := true;
        }
      }
      if flush {
        FlushEntry();
      }
    }
  }

  /** What a call leaves in the whole buffer and in its known part, and the C string in both. */
  lemma LeftInMemory(q: Quoted, before: seq<byte>, known: seq<byte>)
    requires known <= before && |q.text| + (if q.closed then 1 else 0) <= |before| && NUL in Left(q, known)
    ensures var mem, now := Overwritten(q, before), Left(q, known); now <= mem && HoldsString(mem, CString(now))
  {
    var mem, now := Overwritten(q, before), Left(q, known);
    assert forall i | 0 <= i < |now| :: mem[i] == now[i];
    var at :| 0 <= at < |now| && now[at] == NUL;
    assert StrLen(now) <= at;
    assert mem[..StrLen(now)] == now[..StrLen(now)];
  }

  /** The zeros behind the text are its padding. */
  lemma PaddedInBuffer(mem: seq<byte>, text: seq<byte>)
    requires ZeroFilled(mem, text) && |mem| % 4 == 0
    ensures |text| + Padding(|text|) <= |mem| && mem[..|text| + Padding(|text|)] == Padded(text)
  {
    var n := |text| + Padding(|text|);
    assert n <= |mem|;
    forall i | 0 <= i < n ensures mem[i] == Padded(text)[i] {
      assert i < |text| ==> mem[i] == mem[..|text|][i];
    }
  }

  lemma MsgIdHasText(line: seq<byte>)
    requires IsMsgId(line)
    ensures Extract(line).Some?
  {
    assert line[..7][6] == QUOTE;
    assert line[6] == QUOTE;
  }

  lemma ExtractedNoNul(line: seq<byte>)
    requires NUL !in line && Extract(line).Some?
    ensures NUL !in Extract(line).value.text
  {
    UnquoteElements(line[FirstQuote(line) + 1..]);
  }

  /** `print_index` behind the values. */
  method PrintIndex(entries: seq<LmoEntry>, out: seq<byte>) returns (written: seq<byte>)
    ensures exists sorted :: IsSorting(sorted, entries) && written == out + IndexBytes(sorted)
  {
    var sorted := Qsort(entries);
    written := out;
    for i := 0 to |sorted|
      invariant written == out + IndexBytes(sorted[..i])
    {
      assert sorted[..i + 1][..i] == sorted[..i];
      written := written + PutWord(sorted[i].keyId);
      written := written + PutWord(sorted[i].valId);
      written := written + PutWord(sorted[i].offset);
      written := written + PutWord(sorted[i].length);
    }
    assert sorted[..|sorted|] == sorted;
  }

  /** `main`: the kept file, or None when it is unlinked because no value was written. */
  method Compile(lines: seq<seq<byte>>) returns (file: Option<seq<byte>>)
    requires AllFit(START, lines)
    requires FileSize(Hash, Collect(lines)) < 0x8000_0000
    ensures IsCatalogueFile(Hash, file, Collect(lines))
    ensures file.Some? ==>
              && 4 <= |file.value|
              && WordAt(file.value, |file.value| - 4) == ValuesSize(Hash, Collect(lines))
  {
    var c := new Compiler();
    var next := 0;
    assert lines[0..] == lines;
    while next < |lines| || c.state >= 2
      invariant 0 <= next <= |lines|
      invariant fresh(c) && fresh(c.key) && fresh(c.val) && fresh(c.tmp) && c.Valid()
      invariant c.state == 0 ==> c.keyText == [] && c.valText == []
      invariant c.state <= 2 ==> c.valText == []
      invariant AllFit(c.Model(), lines[next..])
      invariant AtEof(Run(c.Model(), lines[next..])) == AtEof(Run(START, lines))
      decreases |lines| - next, c.state
    {
      if next < |lines| {
        assert lines[next..][1..] == lines[next + 1..];
        c.ProcessLine(lines[next]);
        next := next + 1;
      } else {
        assert lines[next..] == [];
        NoQuote([]);
        EofTerminates(c.Model());
        c.ProcessLine([]);
      }
    }
    assert lines[next..] == [];
    file := CloseFile(Hash, Collect(lines), c.entries, c.out, c.offset);
  }

  /** Index and trailer; a file without values is unlinked. */
  method CloseFile(ghost h: TextHash, ghost pairs: seq<Pair>, entries: seq<LmoEntry>, out: seq<byte>, offset: nat)
    returns (file: Option<seq<byte>>)
    requires Layout(out, entries) == LayOut(h, pairs) && offset == |out| && FileSize(h, pairs) < 0x8000_0000
    ensures IsCatalogueFile(h, file, pairs)
    ensures file.Some? ==>
              4 <= |file.value| && WordAt(file.value, |file.value| - 4) == ValuesSize(h, pairs)
  {
    var written := PrintIndex(entries, out);
    if offset > 0 {
      file := Some(written + PutWord(ToWord(offset)));
      TrailerIsSize(h, file, pairs);
    } else {
      file := None;
    }
  }
}
