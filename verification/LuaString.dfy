/** Lua string literals: the escaper (template_utils.c, `luastr_escape`) against the Lua 5.1 lexer. */
module LuaString {
  import opened Bytes
  import opened Buffer
  import opened XmlText

  const LETTER_N: byte := 0x6E

  function LuaByte(c: byte, xml: bool): seq<byte> {
    if c == BACKSLASH then [BACKSLASH, BACKSLASH]
    else if c == QUOTE then if xml then Ref(QUOTE) else [BACKSLASH, QUOTE]
    else if c == LF then [BACKSLASH, LETTER_N]
    else if xml && (c == APOS || c == AMP || c == LT || c == GT) then Ref(c)
    else [c]
  }

  /** What `luastr_escape` appends. */
  function EscapeLua(s: seq<byte>, xml: bool): seq<byte> {
    if s == [] then [] else LuaByte(s[0], xml) + EscapeLua(s[1..], xml)
  }

  lemma EscapeLuaStep(s: seq<byte>, i: nat, xml: bool, done: seq<byte>)
    requires i < |s|
    ensures (done + LuaByte(s[i], xml)) + EscapeLua(s[i + 1..], xml) == done + EscapeLua(s[i..], xml)
  {
    assert s[i..][1..] == s[i + 1..];
  }

  /** `luastr_escape` */
  method AppendEscaped(out: TemplateBuffer, s: seq<byte>, xml: bool)
    requires out.Valid()
    modifies out, out.data
    ensures out.Valid() && (out.data == old(out.data) || fresh(out.data))
    ensures out.Contents() == old(out.Contents()) + EscapeLua(s, xml)
  {
    var ptr: nat := 0;
    ghost var whole := out.Contents() + EscapeLua(s, xml);
    assert s[0..] == s;
    while ptr < |s|
      invariant ptr <= |s|
      invariant out.Valid() && (out.data == old(out.data) || fresh(out.data))
      invariant out.Contents() + EscapeLua(s[ptr..], xml) == whole
    {
      EscapeLuaStep(s, ptr, xml, out.Contents());
      PutLuaByte(out, s[ptr], xml);
      ptr := ptr + 1;
    }
    assert out.Contents() + [] == out.Contents();
  }

  /** The `switch` of `luastr_escape`, with its fall-through from the XML cases to the default. */
  method PutLuaByte(out: TemplateBuffer, c: byte, xml: bool)
    requires out.Valid()
    modifies out, out.data
    ensures out.Valid() && (out.data == old(out.data) || fresh(out.data))
    ensures out.Contents() == old(out.Contents()) + LuaByte(c, xml)
  {
    if c == BACKSLASH {
      out.Append([BACKSLASH, BACKSLASH]);
    } else if c == QUOTE {
      if xml {
        out.Append(Ref(QUOTE));
      } else {
        out.Append([BACKSLASH, QUOTE]);
      }
    } else if c == LF {
      out.Append([BACKSLASH, LETTER_N]);
    } else if (c == APOS || c == AMP || c == LT || c == GT) && xml {
      out.Append(Ref(c));
    } else {
      out.PutChar(c);
    }
  }

  // ----------------------------------------------------------------------------------------------
  // Reference: how Lua 5.1 reads a double-quoted literal
  // ----------------------------------------------------------------------------------------------

  datatype Lexed = Lexed(value: seq<byte>, rest: seq<byte>)

  /** The letter escapes of the Lua 5.1 manual, section 2.1. */
  function LetterEscape(c: byte): Option<byte> {
    if c == 0x61 then Some(0x07)       // \a
    else if c == 0x62 then Some(0x08)  // \b
    else if c == 0x66 then Some(0x0C)  // \f
    else if c == LETTER_N then Some(LF)
    else if c == 0x72 then Some(CR)    // \r
    else if c == 0x74 then Some(TAB)   // \t
    else if c == 0x76 then Some(0x0B)  // \v
    else None
  }

  /** The run of at most three digits of a \ddd escape. */
  function DigitRun(t: seq<byte>): (n: nat)
    ensures n <= 3 && n <= |t|
    ensures forall i | 0 <= i < n :: IsDigit(t[i])
  {
    if |t| == 0 || !IsDigit(t[0]) then 0
    else if |t| == 1 || !IsDigit(t[1]) then 1
    else if |t| == 2 || !IsDigit(t[2]) then 2
    else 3
  }

  function Decimal(t: seq<byte>): nat
    requires forall i | 0 <= i < |t| :: IsDigit(t[i])
  {
    if t == [] then 0 else
      assert IsDigit(t[|t| - 1]);
      Decimal(t[..|t| - 1]) * 10 + (t[|t| - 1] as nat - 0x30)
  }

  function Prepend(c: byte, tail: Option<Lexed>): Option<Lexed> {
    match tail
    case None => None
    case Some(l) => Some(Lexed([c] + l.value, l.rest))
  }

  /** Reads a literal from behind its opening quote to its closing quote; a raw line break, the end of
      the text and an escape above 255 are errors. */
  function LexString(t: seq<byte>): Option<Lexed> {
    if t == [] then None
    else if t[0] == QUOTE then Some(Lexed([], t[1..]))
    else if t[0] == LF || t[0] == CR then None
    else if t[0] != BACKSLASH then Prepend(t[0], LexString(t[1..]))
    else if |t| == 1 then None
    else if LetterEscape(t[1]).Some? then Prepend(LetterEscape(t[1]).value, LexString(t[2..]))
    else if t[1] == LF || t[1] == CR then
      if |t| > 2 && (t[2] == LF || t[2] == CR) && t[2] != t[1] then Prepend(LF, LexString(t[3..]))
      else Prepend(LF, LexString(t[2..]))
    else if IsDigit(t[1]) then
      var n := DigitRun(t[1..]);
      var v := Decimal(t[1..][..n]);
      if v > 255 then None else Prepend(v as byte, LexString(t[1 + n..]))
    else Prepend(t[1], LexString(t[2..]))
  }

  function PrependAll(a: seq<byte>, tail: Option<Lexed>): Option<Lexed> {
    match tail
    case None => None
    case Some(l) => Some(Lexed(a + l.value, l.rest))
  }

  predicate IsPlain(c: byte) {
    c != QUOTE && c != BACKSLASH && c != LF && c != CR
  }

  /** Bytes without a meaning of their own, a reference for example, are read as they stand. */
  lemma {:induction false} LexPlain(a: seq<byte>, tail: seq<byte>)
    requires forall i | 0 <= i < |a| :: IsPlain(a[i])
    ensures LexString(a + tail) == PrependAll(a, LexString(tail))
  {
    if a == [] {
      assert a + tail == tail;
      if LexString(tail).Some? {
        assert [] + LexString(tail).value.value == LexString(tail).value.value;
      }
    } else {
      assert (a + tail)[1..] == a[1..] + tail;
      LexPlain(a[1..], tail);
      if LexString(tail).Some? {
        assert [a[0]] + (a[1..] + LexString(tail).value.value) == a + LexString(tail).value.value;
      }
    }
  }

  /** One escaped byte is read back as the byte, or as its reference. */
  lemma LexLuaByte(c: byte, xml: bool, tail: seq<byte>)
    ensures LexString(LuaByte(c, xml) + tail)
            == if c == CR then None else PrependAll(if xml then EscapeByte(c) else [c], LexString(tail))
  {
    if xml && IsSpecial(c) {
      LexPlain(Ref(c), tail);
    } else {
      var e := LuaByte(c, xml);
      var t := e + tail;
      assert t[|e|..] == tail;
      assert t[0] == e[0];
      assert |e| > 1 ==> t[1] == e[1];
    }
  }

  lemma EscapeThenQuote(first: seq<byte>, others: seq<byte>, rest: seq<byte>)
    ensures (first + others) + [QUOTE] + rest == first + (others + [QUOTE] + rest)
  {
  }

  /** Lua reads back exactly the escaped text and stops at the quote the generator put behind it, for
      exactly the texts without a carriage return, which Lua takes for a line break. With `xml` it
      reads the XML-escaped text. */
  lemma {:induction false} LexEscaped(s: seq<byte>, xml: bool, rest: seq<byte>)
    ensures LexString(EscapeLua(s, xml) + [QUOTE] + rest)
            == if CR in s then None else Some(Lexed(if xml then EscapeXml(s) else s, rest))
  {
    if s == [] {
      var tail := [QUOTE] + rest;
      assert EscapeLua(s, xml) + [QUOTE] + rest == tail;
      assert tail[1..] == rest;
    } else {
      var next := EscapeLua(s[1..], xml) + [QUOTE] + rest;
      LexEscaped(s[1..], xml, rest);
      EscapeThenQuote(LuaByte(s[0], xml), EscapeLua(s[1..], xml), rest);
      assert s == [s[0]] + s[1..];
      LexLuaByte(s[0], xml, next);
    }
  }

  /** Lua-unescaping and then decoding the references gives the text back. */
  lemma EscapeInvertible(s: seq<byte>, rest: seq<byte>)
    requires CR !in s
    ensures LexString(EscapeLua(s, false) + [QUOTE] + rest) == Some(Lexed(s, rest))
    ensures var l := LexString(EscapeLua(s, true) + [QUOTE] + rest);
            l.Some? && DecodeRefs(l.value.value) == s && l.value.rest == rest
  {
    LexEscaped(s, false, rest);
    LexEscaped(s, true, rest);
    DecodeEscaped(s);
  }

  /** No raw newline is ever written. */
  lemma {:induction false} EscapedHasNoNewline(s: seq<byte>, xml: bool)
    ensures LF !in EscapeLua(s, xml)
  {
    if s != [] {
      EscapedHasNoNewline(s[1..], xml);
      assert LF !in LuaByte(s[0], xml);
    }
  }

  /** The escapes, as they are written. */
  lemma LuaEscapes()
    ensures LuaByte(0x5C, false) == LuaByte(0x5C, true) == Ascii("\\\\")
    ensures LuaByte(0x0A, false) == LuaByte(0x0A, true) == Ascii("\\n")
    ensures LuaByte(0x22, false) == Ascii("\\\"") && LuaByte(0x22, true) == Ascii("&#34;")
    ensures LuaByte(0x26, true) == Ascii("&#38;") && LuaByte(0x27, true) == Ascii("&#39;")
    ensures LuaByte(0x3C, true) == Ascii("&#60;") && LuaByte(0x3E, true) == Ascii("&#62;")
  {
  }

  /** A byte that is written as something else. */
  predicate NeedsEscape(c: byte, xml: bool) {
    c == 0x5C || c == 0x22 || c == 0x0A || (xml && (c == 0x26 || c == 0x27 || c == 0x3C || c == 0x3E))
  }

  /** Everything else is written as it stands. */
  lemma {:induction false} EscapeLuaUnchangedIff(s: seq<byte>, xml: bool)
    ensures |EscapeLua(s, xml)| >= |s|
    ensures EscapeLua(s, xml) == s <==> forall i | 0 <= i < |s| :: !NeedsEscape(s[i], xml)
  {
    if s != [] {
      var rest := s[1..];
      EscapeLuaUnchangedIff(rest, xml);
      assert forall i | 1 <= i < |s| :: s[i] == rest[i - 1];
      if NeedsEscape(s[0], xml) {
        assert |EscapeLua(s, xml)| > |s|;
      } else {
        assert EscapeLua(s, xml) == [s[0]] + EscapeLua(rest, xml) && s == [s[0]] + rest;
        assert EscapeLua(s, xml)[1..] == EscapeLua(rest, xml);
        assert forall i | 0 <= i < |rest| :: rest[i] == s[i + 1];
      }
    }
  }
}
