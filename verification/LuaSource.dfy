/** The generated fragments as the Lua loader reads them: one after the other, as one source text. */
module LuaSource {
  import opened Bytes
  import opened XmlText
  import opened LuaString
  import opened TemplateSyntax

  // ----------------------------------------------------------------------------------------------
  // Reference: calls with one string literal, in Lua 5.1
  // ----------------------------------------------------------------------------------------------

  const COMMENT_HEAD: seq<byte> := [MINUS, MINUS]
  const LONG_COMMENT_HEAD: seq<byte> := [MINUS, MINUS, 0x5B]

  /** The rest of the line is dropped. */
  function SkipLine(t: seq<byte>): (r: seq<byte>)
    ensures |r| <= |t|
  {
    if t == [] || t[0] == LF || t[0] == CR then t else SkipLine(t[1..])
  }

  /** Whitespace and comments to the end of the line. */
  function Skip(t: seq<byte>): (r: seq<byte>)
    ensures |r| <= |t|
    decreases |t|
  {
    if t != [] && IsSpace(t[0]) then Skip(t[1..])
    else if COMMENT_HEAD <= t && !(LONG_COMMENT_HEAD <= t) then Skip(SkipLine(t[2..]))
    else t
  }

  lemma {:induction false} LexShorter(t: seq<byte>)
    ensures LexString(t).Some? ==> |LexString(t).value.rest| < |t|
    decreases |t|
  {
    if t != [] {
      LexShorter(t[1..]);
      if |t| > 1 {
        LexShorter(t[2..]);
        LexShorter(t[1 + DigitRun(t[1..])..]);
      }
      if |t| > 2 {
        LexShorter(t[3..]);
      }
    }
  }

  /** Statements of the two forms the generator writes around a literal; None for anything else. */
  function ReadCalls(src: seq<byte>): Option<seq<Stmt>>
    decreases |src|
  {
    var t := Skip(src);
    if t == [] then Some([])
    else if WRITE_HEAD <= t then
      var call := ReadLiteral(t[|WRITE_HEAD|..]);
      if call.None? then None else Then(Write(call.value.value), ReadCalls(call.value.rest))
    else if INCLUDE_HEAD <= t then
      var call := ReadLiteral(t[|INCLUDE_HEAD|..]);
      if call.None? then None else Then(Including(call.value.value), ReadCalls(call.value.rest))
    else None
  }

  /** The rest of a literal and the closing parenthesis behind it. */
  function ReadLiteral(t: seq<byte>): (call: Option<Lexed>)
    ensures call.Some? ==> |call.value.rest| < |t|
  {
    LexShorter(t);
    var l := LexString(t);
    if l.None? || !(CLOSE_PAREN <= l.value.rest) then None
    else Some(Lexed(l.value.value, l.value.rest[1..]))
  }

  function Then(stmt: Stmt, others: Option<seq<Stmt>>): Option<seq<Stmt>> {
    if others.None? then None else Some([stmt] + others.value)
  }

  // ----------------------------------------------------------------------------------------------
  // The source of a template without Lua code of its own
  // ----------------------------------------------------------------------------------------------

  /** No code and no expression, except for empty ones. */
  predicate NoScript(items: seq<Item>) {
    forall i | 0 <= i < |items| :: items[i].kind == Code || items[i].kind == Expr ==> items[i].payload == []
  }

  /** What the pieces say, in order, without those that say nothing. */
  function Spoken(tr: Translator, items: seq<Item>): seq<Stmt> {
    if items == [] then [] else
      var m := Meaning(tr, items[0]);
      (if m.Nothing? then [] else [m]) + Spoken(tr, items[1..])
  }

  predicate AllLiteralOk(tr: Translator, items: seq<Item>) {
    items == [] || (LiteralOk(Meaning(tr, items[0])) && AllLiteralOk(tr, items[1..]))
  }

  lemma BlankThen(rest: seq<byte>)
    ensures ReadCalls(BLANK + rest) == ReadCalls(rest)
  {
    assert (BLANK + rest)[1..] == rest;
  }

  lemma LiteralThen(s: seq<byte>, xml: bool, rest: seq<byte>)
    ensures ReadLiteral(EscapeLua(s, xml) + [QUOTE] + (CLOSE_PAREN + rest))
            == if CR in s then None else Some(Lexed(if xml then EscapeXml(s) else s, rest))
  {
    LexEscaped(s, xml, CLOSE_PAREN + rest);
    assert (CLOSE_PAREN + rest)[1..] == rest;
  }

  function CallOf(head: seq<byte>, text: seq<byte>): Stmt {
    if head == WRITE_HEAD then Write(text) else Including(text)
  }

  lemma HeadThen(head: seq<byte>, t: seq<byte>)
    requires head == WRITE_HEAD || head == INCLUDE_HEAD
    ensures var call := ReadLiteral(t);
            ReadCalls(head + t)
            == if call.None? then None else Then(CallOf(head, call.value.value), ReadCalls(call.value.rest))
  {
    assert (head + t)[0] == head[0] && (head + t)[|head|..] == t;
    assert WRITE_HEAD <= head + t ==> (head + t)[0] == WRITE_HEAD[0];
  }

  /** A call in front of more source. */
  lemma CallThen(head: seq<byte>, s: seq<byte>, xml: bool, rest: seq<byte>)
    requires head == WRITE_HEAD || head == INCLUDE_HEAD
    ensures ReadCalls(head + EscapeLua(s, xml) + STRING_TAIL + rest)
            == if CR in s then None else Then(CallOf(head, if xml then EscapeXml(s) else s), ReadCalls(rest))
  {
    var t := EscapeLua(s, xml) + [QUOTE] + (CLOSE_PAREN + rest);
    LiteralThen(s, xml, rest);
    HeadThen(head, t);
    CallParts(head, EscapeLua(s, xml), rest);
  }

  lemma CallParts(head: seq<byte>, literal: seq<byte>, rest: seq<byte>)
    ensures head + literal + STRING_TAIL + rest == head + (literal + [QUOTE] + (CLOSE_PAREN + rest))
  {
  }

  lemma FragmentThen(tr: Translator, item: Item, rest: seq<byte>)
    requires item.kind == Code || item.kind == Expr ==> item.payload == []
    ensures var m := Meaning(tr, item);
            ReadCalls(Fragment(tr, item) + rest)
            == if m.Nothing? then ReadCalls(rest) else if LiteralOk(m) then Then(m, ReadCalls(rest)) else None
  {
    if item.payload == [] {
      BlankThen(rest);
    } else {
      match item.kind
      case TextKind => CallThen(WRITE_HEAD, item.payload, false, rest);
      case Include => CallThen(INCLUDE_HEAD, item.payload, false, rest);
      case I18n =>
        CallThen(WRITE_HEAD, tr(item.payload), true, rest);
        EscapeXmlKeepsCr(tr(item.payload));
      case I18nRaw => CallThen(WRITE_HEAD, tr(item.payload), false, rest);
      case _ => BlankThen(rest);
    }
  }

  /** All that is spoken, or nothing if a literal cannot be read. */
  function Reading(tr: Translator, items: seq<Item>): Option<seq<Stmt>> {
    if AllLiteralOk(tr, items) then Some(Spoken(tr, items)) else None
  }

  lemma ReadingStep(tr: Translator, items: seq<Item>)
    requires items != []
    ensures var m, tail := Meaning(tr, items[0]), Reading(tr, items[1..]);
            Reading(tr, items) == if m.Nothing? then tail else if LiteralOk(m) then Then(m, tail) else None
  {
    if Meaning(tr, items[0]).Nothing? {
      assert [] + Spoken(tr, items[1..]) == Spoken(tr, items[1..]);
    }
  }

  lemma SourceStep(tr: Translator, items: seq<Item>)
    requires items != [] && NoScript(items)
    ensures Concat(Fragments(tr, items)) == Fragment(tr, items[0]) + Concat(Fragments(tr, items[1..]))
    ensures NoScript(items[1..])
  {
    assert Fragments(tr, items)[1..] == Fragments(tr, items[1..]);
    forall i | 0 <= i < |items| - 1
      ensures items[1..][i].kind == Code || items[1..][i].kind == Expr ==> items[1..][i].payload == []
    {
      assert items[1..][i] == items[i + 1];
    }
  }

  /** Read as one text, the fragments are exactly the statements the pieces mean, in order: no literal runs into
      the next fragment. With a carriage return in a literal the whole source is rejected. */
  lemma {:induction false} SourceDenotes(tr: Translator, items: seq<Item>)
    requires NoScript(items)
    ensures ReadCalls(Concat(Fragments(tr, items))) == Reading(tr, items)
    decreases |items|
  {
    if items != [] {
      SourceStep(tr, items);
      SourceDenotes(tr, items[1..]);
      FragmentThen(tr, items[0], Concat(Fragments(tr, items[1..])));
      ReadingStep(tr, items);
    }
  }

  /** The whole source of a closed template. */
  lemma TemplateSource(tr: Translator, ps: seq<Piece>)
    requires NoLoneDash(ps) && Closed(ps) && NoScript(Items(ps, 0, |ps|))
    ensures ReadCalls(Concat(Compiled(tr, ps))) == Reading(tr, Items(ps, 0, |ps|))
  {
    var fs := Fragments(tr, Items(ps, 0, |ps|));
    SourceDenotes(tr, Items(ps, 0, |ps|));
    assert Compiled(tr, ps) == [BLANK] + fs;
    assert ([BLANK] + fs)[1..] == fs;
    BlankThen(Concat(fs));
  }

  // ----------------------------------------------------------------------------------------------
  // Why code tags are another matter
  // ----------------------------------------------------------------------------------------------

  lemma {:induction false} SkipLineAll(t: seq<byte>)
    requires LF !in t && CR !in t
    ensures SkipLine(t) == []
  {
    if t != [] {
      assert t[0] in t;
      SkipLineAll(t[1..]);
    }
  }

  lemma {:induction false} EscapedHasNoReturn(s: seq<byte>)
    requires CR !in s
    ensures CR !in EscapeLua(s, false)
  {
    if s != [] {
      assert s[0] in s;
      EscapedHasNoReturn(s[1..]);
      assert CR !in LuaByte(s[0], false);
    }
  }

  lemma CommentAlone(line: seq<byte>)
    requires LF !in line && CR !in line && (line != [] ==> line[0] != 0x5B)
    ensures ReadCalls(COMMENT_HEAD + line) == Some([])
  {
    var t := COMMENT_HEAD + line;
    assert t[2..] == line;
    assert !(LONG_COMMENT_HEAD <= t) by {
      assert line != [] ==> t[2] == line[0];
    }
    SkipLineAll(line);
    assert Skip([]) == [];
  }

  lemma TwoFragments(tr: Translator, a: Item, b: Item)
    ensures Concat(Fragments(tr, [a, b])) == Fragment(tr, a) + Fragment(tr, b)
    ensures !Meaning(tr, a).Nothing? && !Meaning(tr, b).Nothing? ==> Spoken(tr, [a, b]) == [Meaning(tr, a), Meaning(tr, b)]
  {
    var f, g := Fragment(tr, a), Fragment(tr, b);
    assert [a, b][1..] == [b] && [b][1..] == [];
    assert Fragments(tr, [b]) == [g] && Fragments(tr, [a, b]) == [f] + [g];
    assert ([f] + [g])[1..] == [g] && [g][1..] == [];
    assert Concat([g]) == g + [] == g;
    assert Spoken(tr, [b]) == (if Meaning(tr, b).Nothing? then [] else [Meaning(tr, b)]) + [];
  }

  lemma TextOnOneLine(tr: Translator, text: seq<byte>)
    requires CR !in text
    ensures var g := Fragment(tr, Item(TextKind, text)); LF !in g && CR !in g
  {
    EscapedHasNoNewline(text, false);
    EscapedHasNoReturn(text);
  }

  lemma CodeFragment(tr: Translator, code: seq<byte>)
    requires code != []
    ensures Fragment(tr, Item(Code, code)) == code + BLANK
  {
    assert [] + code + BLANK == code + BLANK;
  }

  /** A code tag that ends in a comment swallows the text behind it: the generator ends code with a blank and
      not with a line break. */
  lemma CommentTagSwallowsText(tr: Translator, note: seq<byte>, text: seq<byte>)
    requires LF !in note && CR !in note && (note != [] ==> note[0] != 0x5B)
    requires text != [] && CR !in text
    ensures var items := [Item(Code, COMMENT_HEAD + note), Item(TextKind, text)];
            && ReadCalls(Concat(Fragments(tr, items))) == Some([])
            && Spoken(tr, items) == [Run(COMMENT_HEAD + note), Write(text)]
  {
    var code, write := Item(Code, COMMENT_HEAD + note), Item(TextKind, text);
    var g := Fragment(tr, write);
    TwoFragments(tr, code, write);
    TextOnOneLine(tr, text);
    CodeFragment(tr, COMMENT_HEAD + note);
    assert (COMMENT_HEAD + note) + BLANK + g == COMMENT_HEAD + (note + BLANK + g);
    CommentAlone(note + BLANK + g);
  }
}
