/** Quoted strings of PO files and `extract_string` (po2lmo.c). */
module PoQuoting {
  import opened Bytes

  /** Position of the first quote, or the length. */
  function FirstQuote(s: seq<byte>): (n: nat)
    ensures n <= |s|
    ensures forall i | 0 <= i < n :: s[i] != QUOTE
    ensures n < |s| ==> s[n] == QUOTE
  {
    if s == [] || s[0] == QUOTE then 0 else 1 + FirstQuote(s[1..])
  }

  /** A text read from behind an opening quote; `closed` tells whether a closing quote was met. */
  datatype Quoted = Quoted(text: seq<byte>, closed: bool)

  function Grow(text: seq<byte>, q: Quoted): Quoted {
    q.(text := text + q.text)
  }

  /** Backslash protects a quote and a backslash; any other escape is kept with its backslash. */
  function Unquote(t: seq<byte>): (q: Quoted)
    ensures |q.text| <= |t| && (q.closed ==> |q.text| < |t|)
  {
    if t == [] then Quoted([], false)
    else if t[0] == QUOTE then Quoted([], true)
    else if t[0] == BACKSLASH && |t| == 1 then Quoted([BACKSLASH], false)
    else if t[0] == BACKSLASH && (t[1] == QUOTE || t[1] == BACKSLASH) then Grow([t[1]], Unquote(t[2..]))
    else if t[0] == BACKSLASH then Grow([BACKSLASH, t[1]], Unquote(t[2..]))
    else Grow([t[0]], Unquote(t[1..]))
  }

  /** The quoted text of a line, if the line has a quote at all. */
  function Extract(line: seq<byte>): Option<Quoted> {
    var q := FirstQuote(line);
    if q == |line| then None else Some(Unquote(line[q + 1..]))
  }

  function QuoteByte(c: byte): seq<byte> {
    if c == QUOTE || c == BACKSLASH then [BACKSLASH, c] else [c]
  }

  /** The PO form of a text. */
  function Quote(s: seq<byte>): seq<byte> {
    if s == [] then [] else QuoteByte(s[0]) + Quote(s[1..])
  }

  lemma {:induction false} UnquoteQuoted(s: seq<byte>, rest: seq<byte>)
    ensures Unquote(Quote(s) + [QUOTE] + rest) == Quoted(s, true)
  {
    if s == [] {
      assert Quote(s) + [QUOTE] + rest == [QUOTE] + rest;
    } else {
      var next := Quote(s[1..]) + [QUOTE] + rest;
      UnquoteQuoted(s[1..], rest);
      var t := Quote(s) + [QUOTE] + rest;
      assert t == QuoteByte(s[0]) + next;
      assert t[|QuoteByte(s[0])|..] == next;
    }
  }

  /** Bytes that need no escape are read as they stand. */
  lemma {:induction false} UnquotePlain(s: seq<byte>, rest: seq<byte>)
    requires QUOTE !in s && BACKSLASH !in s
    ensures Unquote(s + rest) == Grow(s, Unquote(rest))
  {
    if s == [] {
      assert s + rest == rest && [] + Unquote(rest).text == Unquote(rest).text;
    } else {
      assert s[0] in s;
      assert (s + rest)[1..] == s[1..] + rest;
      UnquotePlain(s[1..], rest);
      assert [s[0]] + (s[1..] + Unquote(rest).text) == s + Unquote(rest).text;
    }
  }

  /** An escape of anything but a quote or a backslash is kept with its backslash. */
  lemma OtherEscapeKept(c: byte, rest: seq<byte>)
    requires c != 0x22 && c != 0x5C
    ensures Unquote([0x5C, c] + rest) == Grow([0x5C, c], Unquote(rest))
  {
    var t := [BACKSLASH, c] + rest;
    assert t[0] == BACKSLASH && t[1] == c && t[2..] == rest;
  }

  lemma FirstQuoteIs(s: seq<byte>, n: nat)
    requires n <= |s| && (n < |s| ==> s[n] == QUOTE)
    requires forall i | 0 <= i < n :: s[i] != QUOTE
    ensures FirstQuote(s) == n
  {
  }

  /** Reading a line undoes the quoting, whatever stands before and behind the quotes. */
  lemma ExtractQuoted(prefix: seq<byte>, s: seq<byte>, rest: seq<byte>)
    requires QUOTE !in prefix
    ensures Extract(prefix + [QUOTE] + (Quote(s) + [QUOTE] + rest)) == Some(Quoted(s, true))
  {
    var line := prefix + [QUOTE] + (Quote(s) + [QUOTE] + rest);
    forall i | 0 <= i < |prefix| ensures line[i] != QUOTE {
      assert prefix[i] in prefix;
    }
    FirstQuoteIs(line, |prefix|);
    assert line[|prefix| + 1..] == Quote(s) + [QUOTE] + rest;
    UnquoteQuoted(s, rest);
  }

  /** The bytes of a quoted text come from the line. */
  lemma {:induction false} UnquoteElements(t: seq<byte>)
    ensures forall c | c in Unquote(t).text :: c in t
  {
    if t == [] || t[0] == QUOTE {
    } else if t[0] == BACKSLASH {
      if |t| > 1 {
        UnquoteElements(t[2..]);
      }
    } else {
      UnquoteElements(t[1..]);
    }
  }

  // ----------------------------------------------------------------------------------------------
  // extract_string
  // ----------------------------------------------------------------------------------------------

  /** The part of the line the loop looks at. */
  function Seen(src: seq<byte>, len: nat): seq<byte> {
    if |src| < len then src else src[..len]
  }

  /** What the call leaves in `dest`: the text, its terminator if the quote was closed, and old memory. */
  function Overwritten(q: Quoted, was: seq<byte>): seq<byte>
    requires |q.text| + (if q.closed then 1 else 0) <= |was|
  {
    if q.closed then q.text + [NUL] + was[|q.text| + 1..] else q.text + was[|q.text|..]
  }

  lemma ExtractFits(s: seq<byte>)
    ensures Extract(s).Some? ==> |Extract(s).value.text| < |s|
  {
  }

  /** One byte behind the opening quote. The output index is `pos - off`, and `off` moves by one whenever
      a protected byte replaces the backslash before it. */
  method TakeByte(c: byte, dest: array<byte>, pos: nat, off: nat, esc: bool,
                  ghost s: seq<byte>, ghost was: seq<byte>, ghost goal: Quoted)
    returns (newOff: nat, newEsc: bool, closed: bool)
    requires pos < |s| && c == s[pos] && Written(s, pos, off, esc, dest[..], was, goal)
    modifies dest
    ensures closed ==> dest[..] == Overwritten(goal, was)
    ensures !closed ==> Written(s, pos + 1, newOff, newEsc, dest[..], was, goal)
  {
    newOff, newEsc, closed := off, esc, false;
    if esc {
      WrittenEscaped(s, pos, off, dest[..], was, goal);
      if c == QUOTE || c == BACKSLASH {
        newOff := newOff + 1;
      }
      dest[pos - newOff] := c;
      newEsc := false;
    } else {
      WrittenPlain(s, pos, off, dest[..], was, goal);
      if c == BACKSLASH {
        dest[pos - newOff] := c;
        newEsc := true;
      } else if c != QUOTE {
        dest[pos - newOff] := c;
      } else {
        dest[pos - newOff] := NUL;
        closed := true;
      }
    }
  }

  /** The text to extract, if there is a quote. */
  ghost function Goal(s: seq<byte>): Quoted {
    if FirstQuote(s) < |s| then Unquote(s[FirstQuote(s) + 1..]) else Quoted([], false)
  }

  /** The loop after `pos` bytes: `off` is -1 until the first quote. */
  ghost predicate Extracting(s: seq<byte>, pos: nat, off: int, esc: bool, now: seq<byte>, was: seq<byte>) {
    && pos <= |s| <= |now| == |was| && off >= -1
    && (off == -1 ==> !esc && pos <= FirstQuote(s) && now == was)
    && (off >= 0 ==> FirstQuote(s) < |s| && Written(s, pos, off, esc, now, was, Goal(s)))
  }

  /** The body of the loop. */
  method ExtractTurn(c: byte, dest: array<byte>, pos: nat, off: int, esc: bool, ghost s: seq<byte>, ghost was: seq<byte>)
    returns (newOff: int, newEsc: bool, closed: bool)
    requires pos < |s| && c == s[pos] && Extracting(s, pos, off, esc, dest[..], was)
    modifies dest
    ensures closed ==> FirstQuote(s) < |s| && dest[..] == Overwritten(Goal(s), was)
    ensures !closed ==> Extracting(s, pos + 1, newOff, newEsc, dest[..], was)
  {
    newOff, newEsc, closed := off, esc, false;
    if off == -1 && c == QUOTE {
      FirstQuoteIs(s, pos);
      WrittenStarts(s, was);
      newOff := pos + 1;
    } else if off >= 0 {
      newOff, newEsc, closed := TakeByte(c, dest, pos, off, esc, s, was, Goal(s));
    }
  }

  /** `extract_string`. `src` is the text of a C string. */
  method ExtractString(src: seq<byte>, dest: array<byte>, len: nat) returns (r: int)
    requires NUL !in src && len <= dest.Length
    modifies dest
    ensures Extract(Seen(src, len)).None? ==> r == -1 && dest[..] == old(dest[..])
    ensures Extract(Seen(src, len)).Some? ==>
              var q := Extract(Seen(src, len)).value;
              && |q.text| < len
              && dest[..] == Overwritten(q, old(dest[..])) && r == StrLen(dest[..])
  {
    ghost var s := Seen(src, len);
    ghost var was := dest[..];
    ExtractFits(s);
    var pos: nat := 0;
    var esc := false;
    var off: int := -1;
    while pos < |src| && pos < len
      invariant Extracting(s, pos, off, esc, dest[..], was)
    {
      var closed;
      off, esc, closed := ExtractTurn(src[pos], dest, pos, off, esc, s, was);
      if closed {
        return StrLen(dest[..]);
      }
      pos := pos + 1;
    }
    ExtractEnds(s, off, esc, dest[..], was);
    r := if off > -1 then StrLen(dest[..]) else -1;
  }

  lemma ExtractEnds(s: seq<byte>, off: int, esc: bool, now: seq<byte>, was: seq<byte>)
    requires Extracting(s, |s|, off, esc, now, was)
    ensures off == -1 <==> Extract(s).None?
    ensures off == -1 ==> now == was
    ensures off >= 0 ==> |Goal(s).text| < |s| && now == Overwritten(Goal(s), was)
  {
    if off >= 0 {
      WrittenEnds(s, off, esc, now, was, Goal(s));
    }
  }

  /** The loop after `pos` bytes: `pos - off` bytes are written, the last of them possibly a pending
      backslash; the text still to come completes them to the goal. */
  ghost predicate Written(s: seq<byte>, pos: nat, off: nat, esc: bool,
                          now: seq<byte>, was: seq<byte>, goal: Quoted) {
    && off <= pos <= |s| <= |now| == |was|
    && now[pos - off..] == was[pos - off..]
    && (if esc then
          && off < pos && s[pos - 1] == BACKSLASH && now[pos - off - 1] == BACKSLASH
          && Grow(now[..pos - off - 1], Unquote(s[pos - 1..])) == goal
        else
          Grow(now[..pos - off], Unquote(s[pos..])) == goal)
  }

  lemma WrittenEscaped(s: seq<byte>, pos: nat, off: nat, now: seq<byte>, was: seq<byte>, goal: Quoted)
    requires Written(s, pos, off, true, now, was, goal) && pos < |s|
    ensures if s[pos] == QUOTE || s[pos] == BACKSLASH then
              off + 1 <= pos && Written(s, pos + 1, off + 1, false, now[pos - off - 1 := s[pos]], was, goal)
            else Written(s, pos + 1, off, false, now[pos - off := s[pos]], was, goal)
  {
  }

  lemma WrittenPlain(s: seq<byte>, pos: nat, off: nat, now: seq<byte>, was: seq<byte>, goal: Quoted)
    requires Written(s, pos, off, false, now, was, goal) && pos < |s|
    ensures s[pos] != QUOTE ==>
              Written(s, pos + 1, off, s[pos] == BACKSLASH, now[pos - off := s[pos]], was, goal)
    ensures s[pos] == QUOTE ==> now[pos - off := NUL] == Overwritten(goal, was)
  {
  }

  lemma WrittenStarts(s: seq<byte>, was: seq<byte>)
    requires |s| <= |was| && FirstQuote(s) < |s|
    ensures var q := FirstQuote(s); Written(s, q + 1, q + 1, false, was, was, Unquote(s[q + 1..]))
  {
    assert was[..0] == [] && was[0..] == was;
    var q := Unquote(s[FirstQuote(s) + 1..]);
    assert [] + q.text == q.text;
  }

  lemma WrittenEnds(s: seq<byte>, off: nat, esc: bool, now: seq<byte>, was: seq<byte>, goal: Quoted)
    requires Written(s, |s|, off, esc, now, was, goal)
    ensures now == Overwritten(goal, was)
  {
    assert s[|s|..] == [];
    if esc {
      assert s[|s| - 1..] == [BACKSLASH];
    }
  }
}
