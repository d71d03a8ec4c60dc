/** Words, whitespace runs, and the canonical form of a text: its words joined by single spaces. */
module Words {
  import opened Bytes

  /** The maximal runs of non-space bytes, in order. */
  function Words(s: seq<byte>): (ws: seq<seq<byte>>)
    ensures AllWords(ws)
    ensures s != [] && !IsSpace(s[0]) ==> ws != []
  {
    if s == [] then []
    else if IsSpace(s[0]) then Words(s[1..])
    else
      var rest := Words(s[1..]);
      if |s| > 1 && !IsSpace(s[1]) then
        assert IsWord(rest[0]);
        [[s[0]] + rest[0]] + rest[1..]
      else
        assert IsWord([s[0]]);
        [[s[0]]] + rest
  }

  predicate IsWord(w: seq<byte>) {
    w != [] && forall i | 0 <= i < |w| :: !IsSpace(w[i])
  }

  predicate AllWords(ws: seq<seq<byte>>) {
    forall i | 0 <= i < |ws| :: IsWord(ws[i])
  }

  function Join(ws: seq<seq<byte>>): seq<byte> {
    if ws == [] then []
    else if |ws| == 1 then ws[0]
    else ws[0] + [SPACE] + Join(ws[1..])
  }

  predicate Canonical(s: seq<byte>) {
    s == Join(Words(s))
  }

  /** Of every run of whitespace only the first byte is kept, and none if the byte before is a space. */
  function Collapse(s: seq<byte>, prev: byte): seq<byte> {
    if s == [] then []
    else if IsSpace(s[0]) && IsSpace(prev) then Collapse(s[1..], s[0])
    else [s[0]] + Collapse(s[1..], s[0])
  }

  /** The whitespace of the C locale: blank, tab, newline, vertical tab, form feed, carriage return. */
  lemma SpaceBytes(c: byte)
    ensures IsSpace(c) <==> c in [0x20, 0x09, 0x0A, 0x0B, 0x0C, 0x0D]
  {
  }

  /** The last byte goes out unless it is whitespace behind whitespace: of every run the first byte stays. */
  lemma {:induction false} CollapseAppend(s: seq<byte>, c: byte, prev: byte)
    ensures Collapse(s + [c], prev)
            == Collapse(s, prev)
               + if IsSpace(c) && IsSpace(if s == [] then prev else s[|s| - 1]) then [] else [c]
    decreases |s|
  {
    if s == [] {
      assert [] + [c] == [c] && [c][1..] == [];
    } else {
      assert (s + [c])[1..] == s[1..] + [c];
      CollapseAppend(s[1..], c, s[0]);
    }
  }

  /** Neither leading whitespace after `prev` nor two whitespace bytes in a row. */
  predicate Tidy(s: seq<byte>, prev: byte) {
    forall i | 0 <= i < |s| :: !(IsSpace(Before(s, prev, i)) && IsSpace(s[i]))
  }

  function Before(s: seq<byte>, prev: byte, i: nat): byte
    requires i < |s|
  {
    if i == 0 then prev else s[i - 1]
  }

  lemma {:induction false} CollapseTidy(s: seq<byte>, prev: byte)
    ensures Tidy(Collapse(s, prev), prev)
  {
    if s != [] {
      CollapseTidy(s[1..], s[0]);
      var rest := Collapse(s[1..], s[0]);
      var out := Collapse(s, prev);
      forall i | 0 <= i < |out| ensures !(IsSpace(Before(out, prev, i)) && IsSpace(out[i])) {
        if IsSpace(s[0]) && IsSpace(prev) {
          assert !(IsSpace(Before(rest, s[0], i)) && IsSpace(rest[i]));
        } else if i > 0 {
          assert !(IsSpace(Before(rest, s[0], i - 1)) && IsSpace(rest[i - 1]));
        }
      }
    }
  }

  /** Collapsing loses no word and changes none. */
  lemma {:induction false} CollapseKeepsWords(s: seq<byte>, prev: byte)
    ensures Words(Collapse(s, prev)) == Words(s)
  {
    if s != [] {
      CollapseKeepsWords(s[1..], s[0]);
      var rest := Collapse(s[1..], s[0]);
      assert ([s[0]] + rest)[1..] == rest;
      if !IsSpace(s[0]) && |s| > 1 {
        assert rest[0] == s[1];
      }
    }
  }

  function Blanked(s: seq<byte>): (r: seq<byte>)
    ensures |r| == |s|
    ensures forall i | 0 <= i < |s| :: r[i] == if IsSpace(s[i]) then SPACE else s[i]
  {
    if s == [] then [] else [if IsSpace(s[0]) then SPACE else s[0]] + Blanked(s[1..])
  }

  function TrimLast(s: seq<byte>): seq<byte> {
    if s != [] && IsSpace(s[|s| - 1]) then s[..|s| - 1] else s
  }

  /** What the loop of `lmo_canon_hash` leaves in its buffer. */
  function CanonText(s: seq<byte>): seq<byte> {
    TrimLast(Collapse(Blanked(s), SPACE))
  }

  lemma TrimLastCons(c: byte, s: seq<byte>)
    requires s != [] || !IsSpace(c)
    ensures TrimLast([c] + s) == [c] + TrimLast(s)
  {
    if s != [] {
      assert ([c] + s)[|s|] == s[|s| - 1];
    }
  }

  lemma {:induction false} BlankedTail(s: seq<byte>)
    requires s != []
    ensures Blanked(s)[1..] == Blanked(s[1..])
  {
  }

  lemma JoinGrow(c: byte, ws: seq<seq<byte>>)
    requires ws != []
    ensures Join([[c] + ws[0]] + ws[1..]) == [c] + Join(ws)
  {
    var grown := [[c] + ws[0]] + ws[1..];
    assert grown[1..] == ws[1..];
  }

  /** The general step: after a space the words are joined; after a word byte one space comes first. */
  lemma {:induction false} CanonTextFrom(s: seq<byte>, prev: byte)
    ensures TrimLast(Collapse(Blanked(s), prev))
            == (if s != [] && IsSpace(s[0]) && !IsSpace(prev) && Words(s) != [] then [SPACE] else [])
               + Join(Words(s))
  {
    if s != [] {
      var c := Blanked(s)[0];
      BlankedTail(s);
      CanonTextFrom(s[1..], c);
      if IsSpace(s[0]) {
        CanonTextSpace(s, prev);
      } else {
        CanonTextLetter(s, prev);
      }
    }
  }

  lemma CanonTextSpace(s: seq<byte>, prev: byte)
    requires s != [] && IsSpace(s[0])
    requires Blanked(s)[1..] == Blanked(s[1..])
    requires TrimLast(Collapse(Blanked(s[1..]), SPACE)) == Join(Words(s[1..]))
    ensures TrimLast(Collapse(Blanked(s), prev))
            == (if !IsSpace(prev) && Words(s) != [] then [SPACE] else []) + Join(Words(s))
  {
    var rest := Collapse(Blanked(s[1..]), SPACE);
    if !IsSpace(prev) {
      CollapseTidy(Blanked(s[1..]), SPACE);
      if rest == [] {
        assert TrimLast([SPACE]) == [];
        JoinEmpty(Words(s));
      } else {
        assert !(IsSpace(Before(rest, SPACE, 0)) && IsSpace(rest[0]));
        TrimLastCons(SPACE, rest);
        assert TrimLast(rest) != [];
      }
    }
  }

  lemma JoinEmpty(ws: seq<seq<byte>>)
    requires AllWords(ws)
    ensures Join(ws) == [] <==> ws == []
  {
    if ws != [] {
      assert IsWord(ws[0]);
    }
  }

  lemma CanonTextLetter(s: seq<byte>, prev: byte)
    requires s != [] && !IsSpace(s[0])
    requires Blanked(s)[1..] == Blanked(s[1..])
    requires TrimLast(Collapse(Blanked(s[1..]), s[0]))
             == (if |s| > 1 && IsSpace(s[1]) && Words(s[1..]) != [] then [SPACE] else []) + Join(Words(s[1..]))
    ensures TrimLast(Collapse(Blanked(s), prev)) == Join(Words(s))
  {
    TrimLastCons(s[0], Collapse(Blanked(s[1..]), s[0]));
    if |s| == 1 || IsSpace(s[1]) {
      JoinNewWord(s[0], Words(s[1..]));
    } else {
      JoinGrow(s[0], Words(s[1..]));
    }
  }

  lemma JoinNewWord(c: byte, ws: seq<seq<byte>>)
    ensures Join([[c]] + ws) == [c] + ((if ws != [] then [SPACE] else []) + Join(ws))
  {
    assert ([[c]] + ws)[1..] == ws;
  }

  /** The canonicalising loop computes the words joined by single spaces. */
  lemma CanonTextIsJoin(s: seq<byte>)
    ensures CanonText(s) == Join(Words(s))
  {
    CanonTextFrom(s, SPACE);
  }

  lemma {:induction false} WordsOfWord(w: seq<byte>, rest: seq<byte>)
    requires IsWord(w)
    requires rest != [] ==> IsSpace(rest[0])
    ensures Words(w + rest) == [w] + Words(rest)
  {
    assert !IsSpace(w[0]);
    var s := w + rest;
    assert s[1..] == w[1..] + rest;
    if |w| > 1 {
      assert IsWord(w[1..]);
      WordsOfWord(w[1..], rest);
      assert s[1] == w[1];
      var ws := Words(s[1..]);
      assert ws[0] == w[1..] && ws[1..] == Words(rest);
      assert [s[0]] + w[1..] == w;
    } else {
      assert s[1..] == rest;
      assert [s[0]] == w;
    }
  }

  /** Splitting a joined list of words gives the list back. */
  lemma {:induction false} WordsOfJoin(ws: seq<seq<byte>>)
    requires AllWords(ws)
    ensures Words(Join(ws)) == ws
  {
    if |ws| == 1 {
      WordsOfWord(ws[0], []);
      assert ws[0] + [] == ws[0];
    } else if |ws| > 1 {
      WordsOfJoin(ws[1..]);
      var tail := [SPACE] + Join(ws[1..]);
      assert tail[1..] == Join(ws[1..]);
      WordsOfWord(ws[0], tail);
      assert Join(ws) == ws[0] + tail;
    }
  }

  lemma CanonTextIdempotent(s: seq<byte>)
    ensures Canonical(CanonText(s))
    ensures CanonText(CanonText(s)) == CanonText(s)
    ensures Words(CanonText(s)) == Words(s)
  {
    CanonTextIsJoin(s);
    WordsOfJoin(Words(s));
    CanonTextIsJoin(CanonText(s));
  }

  /** Two texts have the same canonical form exactly when they have the same words. */
  lemma SameCanonText(s: seq<byte>, t: seq<byte>)
    ensures CanonText(s) == CanonText(t) <==> Words(s) == Words(t)
  {
    CanonTextIdempotent(s);
    CanonTextIdempotent(t);
    CanonTextIsJoin(s);
    CanonTextIsJoin(t);
  }

  /** What a caller can check: only plain single spaces, and none at the ends. */
  predicate SinglySpaced(s: seq<byte>) {
    && (forall i | 0 <= i < |s| :: IsSpace(s[i]) ==> s[i] == SPACE)
    && Tidy(s, SPACE)
    && (s != [] ==> !IsSpace(s[|s| - 1]))
  }

  lemma {:induction false} TidyIsFixed(s: seq<byte>, prev: byte)
    requires Tidy(s, prev)
    ensures Collapse(s, prev) == s
  {
    if s != [] {
      forall i | 0 <= i < |s[1..]| ensures !(IsSpace(Before(s[1..], s[0], i)) && IsSpace(s[1..][i])) {
        assert !(IsSpace(Before(s, prev, i + 1)) && IsSpace(s[i + 1]));
      }
      assert !(IsSpace(Before(s, prev, 0)) && IsSpace(s[0]));
      TidyIsFixed(s[1..], s[0]);
    }
  }

  lemma CollapseElements(s: seq<byte>, prev: byte)
    ensures forall c | c in Collapse(s, prev) :: c in s
  {
  }

  /** Canonical texts can be recognised by looking at their bytes. */
  lemma CanonicalIffSinglySpaced(s: seq<byte>)
    ensures Canonical(s) <==> SinglySpaced(s)
  {
    CanonTextIsJoin(s);
    if SinglySpaced(s) {
      assert Blanked(s) == s;
      TidyIsFixed(s, SPACE);
    }
    if Canonical(s) {
      CanonTextSinglySpaced(s);
    }
  }

  lemma CanonTextSinglySpaced(s: seq<byte>)
    ensures SinglySpaced(CanonText(s))
  {
    var b := Blanked(s);
    var c := Collapse(b, SPACE);
    var t := TrimLast(c);
    CollapseTidy(b, SPACE);
    CollapseElements(b, SPACE);
    forall i | 0 <= i < |t|
      ensures IsSpace(t[i]) ==> t[i] == SPACE
      ensures !(IsSpace(Before(t, SPACE, i)) && IsSpace(t[i]))
    {
      assert c[i] in c;
      assert c[i] in b;
      assert !(IsSpace(Before(c, SPACE, i)) && IsSpace(c[i]));
    }
    if t != [] && IsSpace(c[|c| - 1]) {
      assert |t| == |c| - 1;
      assert !IsSpace(c[|c| - 2]);
    }
  }
}
