/** The incremental template compiler (template_parser.c): one chunk is read and the one before it is
    formatted at every call of the reader. */
module TemplateParser {
  import opened Bytes
  import opened Buffer
  import opened LuaString
  import opened LmoLookup
  import opened TemplateSyntax

  // ----------------------------------------------------------------------------------------------
  // The stream of fragments still to come
  // ----------------------------------------------------------------------------------------------

  /** A text chunk loses its trailing whitespace when it is formatted, by the flag of that moment. */
  function Finished(item: Item, stripBefore: bool): Item {
    if item.kind == TextKind && stripBefore then item.(payload := TrimRight(item.payload)) else item
  }

  /** What the reader returns from a state on: `cur` is read but not formatted, `rest` is not read yet, and
      the flags are those of the last tag. */
  function Pending(tr: Translator, cur: Item, rest: seq<Piece>, stripBefore: bool, stripAfter: bool)
    : seq<seq<byte>>
    requires NoLoneDash(rest)
    decreases |rest|
  {
    if cur.kind == Eof then []
    else if rest == [] then [Fragment(tr, Finished(cur, stripBefore))]
    else match rest[0]
      case Open(_) => [ESCAPE]
      case Tag(body) =>
        [Fragment(tr, Finished(cur, StripsBefore(body)))]
        + Pending(tr, TagItem(body), rest[1..], StripsBefore(body), StripsAfter(body))
      case Text(text) =>
        [Fragment(tr, Finished(cur, stripBefore))]
        + Pending(tr, Item(TextKind, if stripAfter then TrimLeft(text) else text), rest[1..],
                  stripBefore, stripAfter)
  }

  /** Texts and tags in turn. */
  predicate Alternates(ps: seq<Piece>, textFirst: bool) {
    && OpenLast(ps)
    && forall k | 0 <= k < |ps| :: ps[k].Text? <==> ((k % 2 == 0) == textFirst)
  }

  lemma AlternatesCons(p: Piece, ps: seq<Piece>, textFirst: bool)
    requires Alternates(ps, !textFirst) && p.Text? == textFirst && (p.Open? ==> ps == [])
    ensures Alternates([p] + ps, textFirst)
  {
    var all := [p] + ps;
    forall k | 0 <= k < |all|
      ensures all[k].Text? <==> ((k % 2 == 0) == textFirst)
      ensures all[k].Open? ==> k == |all| - 1
    {
      if k > 0 {
        assert all[k] == ps[k - 1];
      }
    }
  }

  lemma {:induction false} SplitTextAlternates(t: seq<byte>)
    ensures Alternates(SplitText(t), true)
    decreases |t|
  {
    var at := FindFirst(t, TAG_OPEN);
    if at.Some? {
      SplitTagAlternates(t[at.value + 2..]);
      AlternatesCons(Text(t[..at.value]), SplitTag(t[at.value + 2..]), true);
    }
  }

  lemma {:induction false} SplitTagAlternates(t: seq<byte>)
    ensures Alternates(SplitTag(t), false)
    decreases |t|
  {
    var at := FindFirst(t, TAG_CLOSE);
    if at.Some? {
      SplitTextAlternates(t[at.value + 2..]);
      AlternatesCons(Tag(t[..at.value]), SplitText(t[at.value + 2..]), false);
    }
  }

  /** The flags of the last tag up to `k`. */
  function FlagBefore(ps: seq<Piece>, k: nat): bool
    requires k < |ps|
  {
    if ps[k].Tag? then StripsBefore(ps[k].body) else TagBefore(ps, k) && StripsBefore(ps[k - 1].body)
  }

  function FlagAfter(ps: seq<Piece>, k: nat): bool
    requires k < |ps|
  {
    if ps[k].Tag? then StripsAfter(ps[k].body) else TagBefore(ps, k) && StripsAfter(ps[k - 1].body)
  }

  /** The chunk read for piece `k`, trimmed on the left only. */
  function ReadItem(ps: seq<Piece>, k: nat): Item
    requires k < |ps| && NoLoneDash(ps) && !ps[k].Open?
  {
    match ps[k]
    case Tag(body) => TagItem(body)
    case Text(_) => Item(TextKind, LeftTrimmed(ps, k))
  }

  /** With piece `k` read, the delayed compiler emits the fragments the direct one gives the pieces from `k`
      on: looking one chunk ahead is all that trimming needs. */
  lemma {:induction false} PendingFrom(tr: Translator, ps: seq<Piece>, k: nat)
    requires NoLoneDash(ps) && Alternates(ps, true) && k < |ps| && !ps[k].Open?
    ensures forall i | 0 <= i < Emitted(ps) :: !ps[i].Open?
    ensures PendingAt(tr, ps, k)
            == Fragments(tr, Items(ps, k, Emitted(ps))) + if Closed(ps) then [] else [ESCAPE]
    decreases |ps| - k
  {
    EmittedCovers(ps, k);
    if k + 1 == |ps| {
      PendingLast(tr, ps, k);
    } else if ps[k + 1].Open? {
      PendingOpen(tr, ps, k);
    } else {
      PendingFrom(tr, ps, k + 1);
      FinishedIsItem(ps, k);
      PendingStep(tr, ps, k);
      FragmentsStep(tr, ps, k, Emitted(ps));
      FragmentThen(Fragment(tr, ItemAt(ps, k)), Fragments(tr, Items(ps, k + 1, Emitted(ps))),
                   if Closed(ps) then [] else [ESCAPE]);
    }
  }

  lemma FragmentThen(f: seq<byte>, fs: seq<seq<byte>>, last: seq<seq<byte>>)
    ensures [f] + (fs + last) == ([f] + fs) + last
  {
  }

  function PendingAt(tr: Translator, ps: seq<Piece>, k: nat): seq<seq<byte>>
    requires NoLoneDash(ps) && k < |ps| && !ps[k].Open?
  {
    Pending(tr, ReadItem(ps, k), ps[k + 1..], FlagBefore(ps, k), FlagAfter(ps, k))
  }

  lemma PendingLast(tr: Translator, ps: seq<Piece>, k: nat)
    requires NoLoneDash(ps) && Alternates(ps, true)
    requires k + 1 == |ps| && forall i | 0 <= i < |ps| :: !ps[i].Open?
    ensures PendingAt(tr, ps, k) == Fragments(tr, Items(ps, k, |ps|)) + []
  {
    FinishedIsItem(ps, k);
    FragmentsStep(tr, ps, k, |ps|);
    assert ps[k + 1..] == [];
  }

  lemma PendingOpen(tr: Translator, ps: seq<Piece>, k: nat)
    requires NoLoneDash(ps) && k + 1 < |ps| && !ps[k].Open? && ps[k + 1].Open?
    ensures PendingAt(tr, ps, k) == [ESCAPE]
  {
    assert ps[k + 1..][0] == ps[k + 1];
  }

  lemma EmittedCovers(ps: seq<Piece>, k: nat)
    requires Alternates(ps, true) && k < |ps| && !ps[k].Open?
    ensures forall i | 0 <= i < Emitted(ps) :: !ps[i].Open?
    ensures k + 1 == |ps| ==> Closed(ps) && Emitted(ps) == |ps|
    ensures k + 1 < |ps| && !ps[k + 1].Open? ==> k < Emitted(ps)
    ensures k + 1 < |ps| && ps[k + 1].Open? ==> k == Emitted(ps) && !Closed(ps)
  {
  }

  /** Trimming at formatting time is trimming by the neighbours. */
  lemma FinishedIsItem(ps: seq<Piece>, k: nat)
    requires NoLoneDash(ps) && Alternates(ps, true) && k < |ps| && !ps[k].Open?
    requires k + 1 < |ps| ==> !ps[k + 1].Open?
    ensures var flag := if k + 1 < |ps| && ps[k + 1].Tag? then StripsBefore(ps[k + 1].body) else FlagBefore(ps, k);
            Finished(ReadItem(ps, k), flag) == ItemAt(ps, k)
  {
    if ps[k].Tag? {
      assert TagItem(ps[k].body).kind != TextKind;
    }
  }

  /** One step of the stream, in terms of the whole list of pieces. */
  lemma PendingStep(tr: Translator, ps: seq<Piece>, k: nat)
    requires NoLoneDash(ps) && Alternates(ps, true)
    requires k + 1 < |ps| && !ps[k].Open? && !ps[k + 1].Open?
    ensures var flag := if ps[k + 1].Tag? then StripsBefore(ps[k + 1].body) else FlagBefore(ps, k);
            PendingAt(tr, ps, k)
            == [Fragment(tr, Finished(ReadItem(ps, k), flag))] + PendingAt(tr, ps, k + 1)
  {
    var rest := ps[k + 1..];
    assert rest[0] == ps[k + 1] && rest[1..] == ps[k + 2..];
    assert ReadItem(ps, k).kind != Eof;
  }

  lemma FragmentsStep(tr: Translator, ps: seq<Piece>, k: nat, n: nat)
    requires NoLoneDash(ps) && k < n <= |ps| && forall i | 0 <= i < n :: !ps[i].Open?
    ensures Fragments(tr, Items(ps, k, n)) == [Fragment(tr, ItemAt(ps, k))] + Fragments(tr, Items(ps, k + 1, n))
  {
    var items := Items(ps, k, n);
    assert items[0] == ItemAt(ps, k) && items[1..] == Items(ps, k + 1, n);
  }

  /** From its first state on the reader emits the compiled template. */
  lemma StreamIsCompiled(tr: Translator, t: seq<byte>)
    requires NoLoneDash(SplitText(t))
    ensures OpenLast(SplitText(t))
    ensures Pending(tr, Item(Init, []), SplitText(t), false, false) == Compiled(tr, SplitText(t))
  {
    var ps := SplitText(t);
    SplitTextAlternates(t);
    if ps != [] {
      PendingFrom(tr, ps, 0);
      assert ps[1..] == ps[0 + 1..];
      assert ps[0].Text? && LeftTrimmed(ps, 0) == ps[0].text;
    }
  }

  // ----------------------------------------------------------------------------------------------
  // strfind
  // ----------------------------------------------------------------------------------------------

  /** `strfind`: the first place of the needle, with the nested loop and its early exit. */
  method StrFind(hay: seq<byte>, needle: seq<byte>) returns (at: Option<nat>)
    requires needle != []
    ensures at == FindFirst(hay, needle)
  {
    var i: nat := 0;
    while i < |hay|
      invariant i <= |hay|
      invariant forall k | 0 <= k < i :: !MatchesAt(hay, needle, k)
    {
      if hay[i] == needle[0] {
        var match_ := |needle| == 1 || i + |needle| <= |hay|;
        var j := 1;
        while j < |needle| && i + j < |hay|
          invariant 1 <= j <= |needle| && i + j <= |hay|
          invariant match_ <==> i + |needle| <= |hay|
          invariant forall k | 0 <= k < j :: hay[i + k] == needle[k]
        {
          if hay[i + j] != needle[j] {
            match_ := false;
            break;
          }
          j := j + 1;
        }
        if match_ {
          assert hay[i..i + |needle|] == needle;
          FindFirstIs(hay, needle, i);
          return Some(i);
        }
        if i + |needle| <= |hay| && j < |needle| {
          assert hay[i..i + |needle|][j] != needle[j];
        }
      } else {
        assert i + |needle| <= |hay| ==> hay[i..i + |needle|][0] != needle[0];
      }
      i := i + 1;
    }
    FindFirstMatches(hay, needle);
    return None;
  }

  // ----------------------------------------------------------------------------------------------
  // The parser object
  // ----------------------------------------------------------------------------------------------

  ghost function TranslatorOf(cat: Catalog): Translator
    requires ValidCatalog(cat)
  {
    (s: seq<byte>) => Translated(cat, s)
  }

  /** `struct template_chunk`; the ends are offsets into the data. */
  datatype Chunk = Chunk(s: nat, e: nat, kind: Kind, line: nat)

  function Newlines(s: seq<byte>): nat {
    if s == [] then 0 else (if s[0] == LF then 1 else 0) + Newlines(s[1..])
  }

  /** Lines of Lua code that formatting an item adds to the count. */
  function CodeLines(item: Item): nat {
    if item.kind == Expr || item.kind == Code then Newlines(item.payload) else 0
  }

  class Parser {
    const data: seq<byte>  // the template and the NUL behind it
    const size: nat
    const catalog: Catalog
    ghost const tr: Translator
    var off: nat
    var line: nat
    var inExpr: bool
    var stripBefore: bool
    var stripAfter: bool
    var prvChunk: Chunk
    var curChunk: Chunk
    ghost var rest: seq<Piece>  // the pieces not read yet

    function ItemOf(c: Chunk): Item {
      ChunkItem(data, size, c)
    }

    /** `tr` is translation by the catalogue. */
    ghost predicate Translating() {
      && ValidCatalog(catalog)
      && forall s {:trigger Translated(catalog, s)} :: tr(s) == Translated(catalog, s)
    }

    ghost predicate Valid()
      reads this
    {
      && off <= size < |data|
      && rest == RestAt(data, size, off, inExpr)
      && Shape(data, size, off, inExpr, curChunk, rest)
    }

    /** The reader stands in a tag that is never closed. */
    ghost predicate Stuck()
      reads this
    {
      rest != [] && rest[0].Open?
    }

    /** The fragments still to come. */
    ghost function Stream(): seq<seq<byte>>
      requires Valid()
      reads this
    {
      Pending(tr, ItemOf(curChunk), rest, stripBefore, stripAfter)
    }

    /** template_string, and template_open on the mapped file: at the start an empty initial chunk. */
    constructor (template: seq<byte>, catalog: Catalog)
      requires ValidCatalog(catalog) && NoLoneDash(SplitText(template))
      ensures Valid() && Translating() && tr == TranslatorOf(catalog) && OpenLast(SplitText(template))
      ensures Stream() == Compiled(tr, SplitText(template))
    {
      data := template + [NUL];
      size := |template|;
      this.catalog := catalog;
      tr := TranslatorOf(catalog);
      off, line := 0, 0;
      inExpr, stripBefore, stripAfter := false, false, false;
      prvChunk := Chunk(0, 0, Init, 0);
      curChunk := Chunk(0, 0, Init, 0);
      rest := SplitText(template);
      new;
      assert data[0..size] == template;
      SplitTextAlternates(template);
      StreamIsCompiled(tr, template);
    }

    /** `template_text`: the text up to `e`, without leading whitespace if the last tag asks for it. */
    method TemplateText(e: nat)
      requires off <= e <= size < |data| && !IsSpace(data[e])
      modifies this`curChunk
      ensures InData(data, size, curChunk)
      ensures if off < size then
                ItemOf(curChunk) == Item(TextKind, if stripAfter then TrimLeft(data[off..e]) else data[off..e])
              else curChunk.kind == Eof && curChunk.s == off && curChunk.e == e
    {
      var s := off;
      var kind := Eof;
      if s < size {
        if stripAfter {
          while s <= e && IsSpace(data[s])
            invariant off <= s <= e
            invariant TrimLeft(data[off..e]) == TrimLeft(data[s..e])
          {
            assert data[s..e][1..] == data[s + 1..e];
            s := s + 1;
          }
        }
        kind := TextKind;
      }
      curChunk := Chunk(s, e, kind, line);
    }

    /** The part of `template_code` that deals with the dashes: where the inside of the tag is. */
    method SkipDashes(e: nat) returns (s: nat, end: nat)
      requires 2 <= off <= e <= size < |data| && data[off - 1] == PERCENT
      requires data[e] == PERCENT || data[e] == NUL
      modifies this`stripBefore, this`stripAfter
      ensures stripBefore == StripsBefore(data[off..e]) && stripAfter == StripsAfter(data[off..e])
      ensures IsInside(data, off, e, s, end)
    {
      s, end := off, e;
      stripBefore := false;
      stripAfter := false;
      if data[s] == MINUS {
        stripBefore := true;
        s := s + 1;
        while s <= end && IsBlank(data[s])
          invariant off < s <= e
          invariant forall i | off < i < s :: IsBlank(data[i])
        {
          s := s + 1;
        }
        BlanksBehindDash(data, off, e, s);
      }
      if data[end - 1] == MINUS {
        stripAfter := true;
        end := end - 1;
        // The source goes on to skip blanks from here down, but here is the dash itself.
        assert !IsBlank(data[end]);
      }
    }

    /** `template_code`: the tag up to `e`. */
    method TemplateCode(e: nat)
      requires 2 <= off <= e <= size < |data| && data[off - 1] == PERCENT
      requires data[e] == PERCENT || data[e] == NUL
      modifies this`curChunk, this`stripBefore, this`stripAfter
      ensures curChunk.kind != Eof && curChunk.kind != TextKind
      ensures stripBefore == StripsBefore(data[off..e]) && stripAfter == StripsAfter(data[off..e])
      ensures data[off..e] != [MINUS] ==> InData(data, size, curChunk) && ItemOf(curChunk) == TagItem(data[off..e])
    {
      var s, end := SkipDashes(e);
      InsideBounds(data, off, e, s, end);
      ghost var start := s;
      var kind := Code;
      var first := data[s];
      if first == HASH {
        s, kind := s + 1, Comment;
      } else if first == PLUS {
        s, kind := s + 1, Include;
      } else if first == COLON {
        s, kind := s + 1, I18n;
      } else if first == UNDERSCORE {
        s, kind := s + 1, I18nRaw;
      } else if first == EQUALS {
        s, kind := s + 1, Expr;
      }
      assert kind == KindFor(first) && s == if kind == Code then start else start + 1;
      curChunk := Chunk(s, end, kind, line);
      if data[off..e] != [MINUS] {
        ItemInside(data[off..e], data, start, end);
      }
    }

    /** The loop of `template_format_chunk` that takes trailing whitespace off a text. */
    method TrimPrevious()
      requires InData(data, size, prvChunk)
      modifies this`prvChunk
      ensures InData(data, size, prvChunk) && ItemOf(prvChunk) == Finished(old(ItemOf(prvChunk)), stripBefore)
      ensures prvChunk.kind == old(prvChunk.kind)
      ensures prvChunk.kind != TextKind ==> prvChunk == old(prvChunk)
    {
      if stripBefore && prvChunk.kind == TextKind {
        var c := prvChunk;
        ghost var whole := data[c.s..c.e];
        while c.e > c.s && IsSpace(data[c.e - 1])
          invariant InData(data, size, c) && c.s == prvChunk.s && c.kind == TextKind
          invariant TrimRight(whole) == TrimRight(data[c.s..c.e])
        {
          TrimRightStep(data, c.s, c.e);
          c := c.(e := c.e - 1);
        }
        prvChunk := c;
      }
    }

    /** The `switch` of `template_format_chunk`. */
    method EmitBody(buf: TemplateBuffer, kind: Kind, payload: seq<byte>)
      requires buf.Valid() && Translating()
      modifies buf, buf.data, this`line
      ensures buf.Valid() && (buf.data == old(buf.data) || fresh(buf.data))
      ensures buf.Contents() == old(buf.Contents()) + Body(tr, Item(kind, payload))
      ensures line == old(line) + CodeLines(Item(kind, payload))
    {
      match kind {
        case TextKind => AppendEscaped(buf, payload, false);
        case Expr =>
          buf.Append(payload);
          var n := CountNewlines(payload);
          line := line + n;
        case Include => AppendEscaped(buf, payload, false);
        case I18n => AppendTranslated(buf, catalog, payload, true);
        case I18nRaw => AppendTranslated(buf, catalog, payload, false);
        case Code =>
          buf.Append(payload);
          var n := CountNewlines(payload);
          line := line + n;
        case _ => assert buf.Contents() + [] == buf.Contents();
      }
    }

    /** The part of `template_format_chunk` for a chunk that is not empty. */
    method EmitChunk(kind: Kind, payload: seq<byte>) returns (f: seq<byte>)
      requires Translating() && payload != []
      modifies this`line
      ensures f == Fragment(tr, Item(kind, payload))
      ensures line == old(line) + CodeLines(Item(kind, payload))
    {
      var buf := new TemplateBuffer(|payload|);
      buf.Append(Head(kind));
      EmitBody(buf, kind, payload);
      buf.Append(Tail(kind));
      Concatenated(Head(kind), Body(tr, Item(kind, payload)), Tail(kind));
      var length := buf.fill;
      var text := buf.Destroy();
      f := if length == 0 then BLANK else text[..length];
    }

    /** `template_format_chunk`: None stands for the end of the input. */
    method FormatChunk() returns (f: Option<seq<byte>>)
      requires InData(data, size, prvChunk) && Translating()
      requires prvChunk.kind == Eof ==> prvChunk.s == prvChunk.e
      modifies this`prvChunk, this`line
      ensures var item := Finished(old(ItemOf(prvChunk)), stripBefore);
              && f == (if item.kind == Eof then None else Some(Fragment(tr, item)))
              && line == old(line) + CodeLines(item)
    {
      TrimPrevious();
      var c := prvChunk;
      if c.s == c.e {
        return if c.kind == Eof then None else Some(BLANK);
      }
      var code := EmitChunk(c.kind, data[c.s..c.e]);
      f := Some(code);
    }

    /** The first half of `template_reader` before a tag. */
    method ReadText() returns (at: Option<nat>)
      requires off <= size < |data| && data[size] == NUL
      modifies this`curChunk, this`off, this`inExpr
      ensures TextRead(data, size, old(off), old(inExpr), at, off, inExpr, curChunk, stripAfter)
    {
      at := StrFind(data[off..size], TAG_OPEN);
      if at.Some? {
        var e := off + at.value;
        DelimiterAhead(data, off, size, at.value, TAG_OPEN);
        TemplateText(e);
        FoundRead(data, size, off, at.value, e, curChunk, stripAfter);
        off := e + 2;
        inExpr := true;
      } else {
        TemplateText(size);
        off := size;
      }
    }

    /** The first half of `template_reader` inside a tag. */
    method ReadTag() returns (at: Option<nat>)
      requires 2 <= off <= size < |data| && data[size] == NUL && data[off - 1] == PERCENT
      modifies this`curChunk, this`off, this`inExpr, this`stripBefore, this`stripAfter
      ensures TagRead(data, size, old(off), old(inExpr), at, off, inExpr, curChunk, stripBefore, stripAfter)
    {
      at := StrFind(data[off..size], TAG_CLOSE);
      if at.Some? {
        DelimiterAhead(data, off, size, at.value, TAG_CLOSE);
        TemplateCode(off + at.value);
        off := off + at.value + 2;
        inExpr := false;
      } else {
        TemplateCode(size);
      }
    }

    /** The first half of `template_reader`: one piece is taken from the rest. */
    method ReadChunk() returns (open: bool)
      requires Valid()
      modifies this`curChunk, this`off, this`inExpr, this`stripBefore, this`stripAfter, this`rest
      ensures Valid() && open == old(Stuck())
      ensures Took(old(rest), rest, ItemOf(curChunk), old(stripBefore), old(stripAfter), stripBefore, stripAfter)
    {
      if !inExpr {
        TakeText();
        open := false;
      } else {
        open := TakeTag();
      }
    }

    method TakeText()
      requires Valid() && !inExpr
      modifies this`curChunk, this`off, this`inExpr, this`rest
      ensures Valid() && !old(Stuck())
      ensures Took(old(rest), rest, ItemOf(curChunk), stripBefore, stripAfter, stripBefore, stripAfter)
    {
      ghost var next := StepText();
      rest := next;
    }

    /** The same with the new rest still to be recorded. */
    method StepText() returns (ghost next: seq<Piece>)
      requires Valid() && !inExpr
      modifies this`curChunk, this`off, this`inExpr
      ensures off <= size < |data| && !Stuck()
      ensures next == RestAt(data, size, off, inExpr) && Shape(data, size, off, inExpr, curChunk, next)
      ensures Took(rest, next, ItemOf(curChunk), stripBefore, stripAfter, stripBefore, stripAfter)
    {
      ghost var start := off;
      var at := ReadText();
      next := TextStep(data, size, start, rest, at, off, inExpr, curChunk, stripBefore, stripAfter);
    }

    method TakeTag() returns (open: bool)
      requires Valid() && inExpr
      modifies this`curChunk, this`off, this`inExpr, this`stripBefore, this`stripAfter, this`rest
      ensures Valid() && open == old(Stuck())
      ensures Took(old(rest), rest, ItemOf(curChunk), old(stripBefore), old(stripAfter), stripBefore, stripAfter)
    {
      ghost var next;
      open, next := StepTag();
      rest := next;
    }

    /** The same with the new rest still to be recorded. */
    method StepTag() returns (open: bool, ghost next: seq<Piece>)
      requires Valid() && inExpr
      modifies this`curChunk, this`off, this`inExpr, this`stripBefore, this`stripAfter
      ensures off <= size < |data|
      ensures next == RestAt(data, size, off, inExpr) && Shape(data, size, off, inExpr, curChunk, next)
      ensures open == Stuck()
      ensures Took(rest, next, ItemOf(curChunk), old(stripBefore), old(stripAfter), stripBefore, stripAfter)
    {
      ghost var start, before, after := off, stripBefore, stripAfter;
      var at := ReadTag();
      open := at.None?;
      next := TagStep(data, size, start, rest, at, off, inExpr, curChunk, before, after, stripBefore, stripAfter);
    }

    /** `template_reader` */
    method Reader() returns (f: Option<seq<byte>>)
      requires Valid() && Translating()
      modifies this
      ensures Valid()
      ensures if old(Stream()) == [] then f == None && Stream() == []
              else f == Some(old(Stream())[0])
                   && Stream() == if old(Stuck()) then old(Stream()) else old(Stream())[1..]
    {
      var open := Advance();
      if open {
        return Some(ESCAPE);
      }
      f := FormatChunk();
    }

    /** The new chunk is read and the old one put behind it. */
    method Advance() returns (open: bool)
      requires Valid()
      modifies this
      ensures Valid() && open == old(Stuck()) && prvChunk == old(curChunk)
      ensures if open then old(Stream()) == [ESCAPE] == Stream()
              else if ItemOf(prvChunk).kind == Eof then old(Stream()) == [] == Stream()
              else
                && old(Stream()) != [] && old(Stream())[0] == Fragment(tr, Finished(ItemOf(prvChunk), stripBefore))
                && old(Stream())[1..] == Stream()
    {
      ghost var cur, was, before, after := ItemOf(curChunk), rest, stripBefore, stripAfter;
      prvChunk := curChunk;
      open := ReadChunk();
      StreamTook(tr, cur, was, before, after, ItemOf(curChunk), rest, stripBefore, stripAfter);
    }
  }

  // ----------------------------------------------------------------------------------------------
  // The state of the parser, on values
  // ----------------------------------------------------------------------------------------------

  lemma Concatenated(a: seq<byte>, b: seq<byte>, c: seq<byte>)
    ensures (([] + a) + b) + c == a + b + c
  {
  }

  lemma TrimRightStep(data: seq<byte>, s: nat, e: nat)
    requires s < e <= |data| && IsSpace(data[e - 1])
    ensures TrimRight(data[s..e]) == TrimRight(data[s..e - 1])
  {
    assert data[s..e][..e - s - 1] == data[s..e - 1];
    assert data[s..e][e - s - 1] == data[e - 1];
  }

  predicate InData(data: seq<byte>, size: nat, c: Chunk) {
    c.s <= c.e <= size <= |data|
  }

  function ChunkItem(data: seq<byte>, size: nat, c: Chunk): Item {
    Item(c.kind, if InData(data, size, c) then data[c.s..c.e] else [])
  }

  /** The pieces not read yet. */
  function RestAt(data: seq<byte>, size: nat, off: nat, inExpr: bool): seq<Piece>
    requires off <= size <= |data|
  {
    if inExpr then SplitTag(data[off..size]) else SplitText(data[off..size])
  }

  function ReadItemOf(text: seq<byte>, stripAfter: bool): Item {
    Item(TextKind, if stripAfter then TrimLeft(text) else text)
  }

  predicate Shape(data: seq<byte>, size: nat, off: nat, inExpr: bool, cur: Chunk, rest: seq<Piece>) {
    && |data| == size + 1 && data[size] == NUL
    && off <= size
    && NoLoneDash(rest)
    && (inExpr ==> off >= 2 && data[off - 1] == PERCENT && cur.kind != Eof)
    && (InData(data, size, cur) || (rest != [] && rest[0].Open?))
    && (cur.kind == Eof ==> off == size && !inExpr && cur.s == cur.e)
  }

  /** What the search for the start of a tag takes from the rest. */
  lemma TextTaken(data: seq<byte>, size: nat, off: nat, at: Option<nat>)
    requires off <= size <= |data| && at == FindFirst(data[off..size], TAG_OPEN)
    requires NoLoneDash(RestAt(data, size, off, false))
    ensures var rest := RestAt(data, size, off, false);
            if at.Some? then
              && off + at.value + 2 <= size && data[off + at.value + 1] == PERCENT
              && var left := RestAt(data, size, off + at.value + 2, true);
                 rest == [Text(data[off..off + at.value])] + left && NoLoneDash(left)
            else
              && RestAt(data, size, size, false) == []
              && rest == if off < size then [Text(data[off..size])] else []
  {
    if at.Some? {
      TextAhead(data, off, size, at.value);
    } else {
      assert data[size..size] == [];
    }
  }

  /** What the search for the end of a tag takes from the rest. */
  lemma TagTaken(data: seq<byte>, size: nat, off: nat, at: Option<nat>)
    requires off <= size <= |data| && at == FindFirst(data[off..size], TAG_CLOSE)
    requires NoLoneDash(RestAt(data, size, off, true))
    ensures var rest := RestAt(data, size, off, true);
            if at.Some? then
              && off + at.value + 2 <= size
              && var left := RestAt(data, size, off + at.value + 2, false);
                 && rest == [Tag(data[off..off + at.value])] + left && NoLoneDash(left)
                 && data[off..off + at.value] != [MINUS]
            else rest == [Open(data[off..size])]
  {
    if at.Some? {
      TagAhead(data, off, size, at.value);
    }
  }

  /** One piece became the current chunk, and a tag set the flags. An open tag stays where it is. */
  predicate Took(was: seq<Piece>, rest: seq<Piece>, item: Item,
                 before: bool, after: bool, newBefore: bool, newAfter: bool)
  {
    if was == [] then
      rest == [] && item.kind == Eof && newBefore == before && newAfter == after
    else if was[0].Open? then
      rest == was && item.kind != Eof
    else if was[0].Text? then
      rest == was[1..] && item == ReadItemOf(was[0].text, after) && newBefore == before && newAfter == after
    else
      && rest == was[1..] && was[0].body != [MINUS] && item == TagItem(was[0].body)
      && newBefore == StripsBefore(was[0].body) && newAfter == StripsAfter(was[0].body)
  }

  lemma TookText(was: seq<Piece>, text: seq<byte>, rest: seq<Piece>, item: Item, before: bool, after: bool)
    requires was == [Text(text)] + rest && item == ReadItemOf(text, after)
    ensures Took(was, rest, item, before, after, before, after)
  {
    assert was[1..] == rest;
  }

  /** What the first half of `template_reader` has done before a tag: `at` is where the tag was found. */
  ghost predicate TextRead(data: seq<byte>, size: nat, start: nat, wasInExpr: bool, at: Option<nat>,
                           off: nat, inExpr: bool, cur: Chunk, after: bool)
  {
    && start <= size < |data|
    && at == FindFirst(data[start..size], TAG_OPEN) && InData(data, size, cur)
    && if at.Some? then
         && off == start + at.value + 2 <= size && inExpr
         && ChunkItem(data, size, cur) == ReadItemOf(data[start..off - 2], after)
       else
         && off == size && inExpr == wasInExpr
         && (if start < size then ChunkItem(data, size, cur) == ReadItemOf(data[start..size], after)
             else cur.kind == Eof && cur.s == size == cur.e)
  }

  /** And inside a tag. */
  ghost predicate TagRead(data: seq<byte>, size: nat, start: nat, wasInExpr: bool, at: Option<nat>,
                          off: nat, inExpr: bool, cur: Chunk, before: bool, after: bool)
  {
    && start <= size < |data|
    && at == FindFirst(data[start..size], TAG_CLOSE) && cur.kind != Eof
    && (at.None? ==> off == start && inExpr == wasInExpr)
    && (at.Some? ==>
          && off == start + at.value + 2 <= size && !inExpr
          && var body := data[start..off - 2];
             && before == StripsBefore(body) && after == StripsAfter(body)
             && (body != [MINUS] ==> InData(data, size, cur) && ChunkItem(data, size, cur) == TagItem(body)))
  }

  lemma FoundRead(data: seq<byte>, size: nat, start: nat, at: nat, e: nat, cur: Chunk, after: bool)
    requires start <= size < |data| && e == start + at && e + 2 <= size && InData(data, size, cur)
    requires FindFirst(data[start..size], TAG_OPEN) == Some(at)
    requires ChunkItem(data, size, cur) == ReadItemOf(data[start..e], after)
    ensures TextRead(data, size, start, false, Some(at), e + 2, true, cur, after)
    ensures TextRead(data, size, start, true, Some(at), e + 2, true, cur, after)
  {
  }

  lemma TextStepFound(data: seq<byte>, size: nat, was: seq<Piece>, text: seq<byte>,
                      off: nat, cur: Chunk, before: bool, after: bool, rest: seq<Piece>)
    requires |data| == size + 1 && data[size] == NUL && 2 <= off <= size && data[off - 1] == PERCENT
    requires was == [Text(text)] + rest && NoLoneDash(rest)
    requires InData(data, size, cur) && ChunkItem(data, size, cur) == ReadItemOf(text, after)
    ensures Shape(data, size, off, true, cur, rest)
    ensures Took(was, rest, ChunkItem(data, size, cur), before, after, before, after) && was != [] && !was[0].Open?
  {
    TookText(was, text, rest, ChunkItem(data, size, cur), before, after);
  }

  lemma TextStepLast(data: seq<byte>, size: nat, was: seq<Piece>, text: seq<byte>,
                     cur: Chunk, before: bool, after: bool)
    requires |data| == size + 1 && data[size] == NUL && InData(data, size, cur)
    requires was == if text != [] then [Text(text)] else []
    requires if text != [] then ChunkItem(data, size, cur) == ReadItemOf(text, after)
             else cur.kind == Eof && cur.s == size == cur.e
    ensures Shape(data, size, size, false, cur, [])
    ensures Took(was, [], ChunkItem(data, size, cur), before, after, before, after) && (was == [] || !was[0].Open?)
  {
    if text != [] {
      assert was == [Text(text)] + [];
      TookText(was, text, [], ChunkItem(data, size, cur), before, after);
    }
  }

  /** What was read is a state of the parser, one piece on. */
  lemma TextStep(data: seq<byte>, size: nat, start: nat, was: seq<Piece>, at: Option<nat>,
                 off: nat, inExpr: bool, cur: Chunk, before: bool, after: bool) returns (rest: seq<Piece>)
    requires |data| == size + 1 && data[size] == NUL && start <= size
    requires was == RestAt(data, size, start, false) && NoLoneDash(was)
    requires TextRead(data, size, start, false, at, off, inExpr, cur, after)
    ensures off <= size && rest == RestAt(data, size, off, inExpr) && Shape(data, size, off, inExpr, cur, rest)
    ensures Took(was, rest, ChunkItem(data, size, cur), before, after, before, after)
    ensures was == [] || !was[0].Open?
  {
    rest := RestAt(data, size, off, inExpr);
    TextTaken(data, size, start, at);
    if at.Some? {
      TextStepFound(data, size, was, data[start..off - 2], off, cur, before, after, rest);
    } else {
      TextStepLast(data, size, was, data[start..size], cur, before, after);
    }
  }

  lemma TagStep(data: seq<byte>, size: nat, start: nat, was: seq<Piece>, at: Option<nat>,
                off: nat, inExpr: bool, cur: Chunk, before: bool, after: bool, newBefore: bool, newAfter: bool)
    returns (rest: seq<Piece>)
    requires |data| == size + 1 && data[size] == NUL && 2 <= start <= size && data[start - 1] == PERCENT
    requires was == RestAt(data, size, start, true) && NoLoneDash(was)
    requires TagRead(data, size, start, true, at, off, inExpr, cur, newBefore, newAfter)
    ensures off <= size && rest == RestAt(data, size, off, inExpr) && Shape(data, size, off, inExpr, cur, rest)
    ensures Took(was, rest, ChunkItem(data, size, cur), before, after, newBefore, newAfter)
    ensures at.None? <==> was != [] && was[0].Open?
  {
    TagTaken(data, size, start, at);
    rest := RestAt(data, size, off, inExpr);
    if at.None? {
      TookOpen(was, data[start..size], ChunkItem(data, size, cur), before, after, newBefore, newAfter);
    } else {
      TookTag(was, data[start..off - 2], rest, ChunkItem(data, size, cur), before, after, newBefore, newAfter);
    }
  }

  lemma TookOpen(was: seq<Piece>, inner: seq<byte>, item: Item,
                 before: bool, after: bool, newBefore: bool, newAfter: bool)
    requires was == [Open(inner)] && item.kind != Eof
    ensures Took(was, was, item, before, after, newBefore, newAfter)
  {
  }

  lemma TookTag(was: seq<Piece>, body: seq<byte>, rest: seq<Piece>, item: Item,
                before: bool, after: bool, newBefore: bool, newAfter: bool)
    requires was == [Tag(body)] + rest && body != [MINUS] && item == TagItem(body)
    requires newBefore == StripsBefore(body) && newAfter == StripsAfter(body)
    ensures Took(was, rest, item, before, after, newBefore, newAfter)
  {
    assert was[1..] == rest;
  }

  /** One step of the stream, by what is next. */
  lemma StreamSteps(tr: Translator, cur: Item, rest: seq<Piece>, before: bool, after: bool)
    requires NoLoneDash(rest) && (cur.kind == Eof ==> rest == [])
    ensures var p := Pending(tr, cur, rest, before, after);
            && (rest == [] ==> p == if cur.kind == Eof then [] else [Fragment(tr, Finished(cur, before))])
            && (rest != [] && rest[0].Open? ==> p == [ESCAPE])
            && (rest != [] && rest[0].Text? ==>
                  p == [Fragment(tr, Finished(cur, before))]
                       + Pending(tr, ReadItemOf(rest[0].text, after), rest[1..], before, after))
            && (rest != [] && rest[0].Tag? ==>
                  var b, a := StripsBefore(rest[0].body), StripsAfter(rest[0].body);
                  p == [Fragment(tr, Finished(cur, b))] + Pending(tr, TagItem(rest[0].body), rest[1..], b, a))
  {
  }

  /** `s` and `end` are where the dashes and the blanks behind the first one leave the ends of the tag. */
  ghost predicate IsInside(data: seq<byte>, off: nat, e: nat, s: nat, end: nat)
    requires off <= e <= |data|
  {
    var body := data[off..e];
    && s == off + (if StripsBefore(body) then 1 + Blanks(body[1..]) else 0)
    && end == if StripsAfter(body) then e - 1 else e
  }

  lemma BlanksBehindDash(data: seq<byte>, off: nat, e: nat, s: nat)
    requires off < s <= e < |data| && data[off] == MINUS && !IsBlank(data[s])
    requires forall i | off < i < s :: IsBlank(data[i])
    ensures s == off + 1 + Blanks(data[off..e][1..])
  {
    var rest := data[off..e][1..];
    assert rest == data[off + 1..e];
    BlanksAre(rest, s - off - 1);
  }

  lemma SliceOfSlice(data: seq<byte>, off: nat, e: nat, s: nat, end: nat)
    requires off <= s <= end <= e <= |data|
    ensures data[off..e][s - off..end - off] == data[s..end]
  {
    var body := data[off..e];
    forall i | 0 <= i < end - s ensures body[s - off..end - off][i] == data[s..end][i] {
      assert body[s - off + i] == data[s + i];
    }
  }

  lemma ItemInside(body: seq<byte>, data: seq<byte>, start: nat, end: nat)
    requires body != [MINUS] && start <= end < |data| && Inside(body) == data[start..end]
    requires start == end ==> data[start] == MINUS || data[start] == PERCENT || data[start] == NUL
    ensures var kind := KindFor(data[start]);
            var s := if kind == Code then start else start + 1;
            s <= end && TagItem(body) == Item(kind, data[s..end])
  {
    var inside := data[start..end];
    if start < end {
      assert inside[0] == data[start] && inside[1..] == data[start + 1..end];
    }
  }

  lemma InsideBounds(data: seq<byte>, off: nat, e: nat, s: nat, end: nat)
    requires off <= e < |data| && IsInside(data, off, e, s, end)
    requires data[e] == PERCENT || data[e] == NUL
    ensures off <= s <= e
    ensures data[off..e] == [MINUS] ==> s == e
    ensures data[off..e] != [MINUS] ==>
              && s <= end && Inside(data[off..e]) == data[s..end]
              && (s == end ==> data[s] == MINUS || data[s] == PERCENT || data[s] == NUL)
  {
    var body := data[off..e];
    if body != [MINUS] {
      DashesApart(body);
      SliceOfSlice(data, off, e, s, end);
    }
  }

  lemma DelimiterAhead(data: seq<byte>, off: nat, size: nat, at: nat, delimiter: seq<byte>)
    requires off <= size <= |data| && |delimiter| == 2 && FindFirst(data[off..size], delimiter) == Some(at)
    ensures off + at + 2 <= size && data[off + at] == delimiter[0] && data[off + at + 1] == delimiter[1]
    ensures data[off..size][..at] == data[off..off + at]
    ensures data[off..size][at + 2..] == data[off + at + 2..size]
  {
    var t := data[off..size];
    assert t[at..at + 2] == delimiter;
    assert t[at] == delimiter[0] && t[at + 1] == delimiter[1];
    forall i | 0 <= i < at ensures t[..at][i] == data[off..off + at][i] {
      assert t[i] == data[off + i];
    }
    var left := data[off + at + 2..size];
    forall i | 0 <= i < |left| ensures t[at + 2..][i] == left[i] {
      assert t[at + 2 + i] == data[off + at + 2 + i];
    }
  }

  lemma TextAhead(data: seq<byte>, off: nat, size: nat, at: nat)
    requires off <= size <= |data| && FindFirst(data[off..size], TAG_OPEN) == Some(at)
    requires NoLoneDash(SplitText(data[off..size]))
    ensures off + at + 2 <= size && data[off + at] == LT && data[off + at + 1] == PERCENT
    ensures SplitText(data[off..size]) == [Text(data[off..off + at])] + SplitTag(data[off + at + 2..size])
    ensures NoLoneDash(SplitTag(data[off + at + 2..size]))
  {
    DelimiterAhead(data, off, size, at, TAG_OPEN);
    var rest := SplitTag(data[off + at + 2..size]);
    NoLoneDashTail(Text(data[off..off + at]), rest);
  }

  lemma TagAhead(data: seq<byte>, off: nat, size: nat, at: nat)
    requires off <= size <= |data| && FindFirst(data[off..size], TAG_CLOSE) == Some(at)
    requires NoLoneDash(SplitTag(data[off..size]))
    ensures off + at + 2 <= size && data[off + at] == PERCENT && data[off + at + 1] == GT
    ensures SplitTag(data[off..size]) == [Tag(data[off..off + at])] + SplitText(data[off + at + 2..size])
    ensures data[off..off + at] != [MINUS] && NoLoneDash(SplitText(data[off + at + 2..size]))
  {
    DelimiterAhead(data, off, size, at, TAG_CLOSE);
    var rest := SplitText(data[off + at + 2..size]);
    NoLoneDashTail(Tag(data[off..off + at]), rest);
  }

  lemma NoLoneDashTail(p: Piece, ps: seq<Piece>)
    ensures NoLoneDash([p] + ps) ==> NoLoneDash(ps) && (p.Tag? ==> p.body != [MINUS])
  {
    var all := [p] + ps;
    if NoLoneDash(all) {
      assert all[0] == p;
      forall k | 0 <= k < |ps| ensures ps[k].Tag? ==> ps[k].body != [MINUS] {
        assert all[k + 1] == ps[k];
      }
    }
  }

  lemma BlanksAre(s: seq<byte>, n: nat)
    requires n <= |s| && (n < |s| ==> !IsBlank(s[n]))
    requires forall i | 0 <= i < n :: IsBlank(s[i])
    ensures Blanks(s) == n
  {
  }

  method CountNewlines(s: seq<byte>) returns (n: nat)
    ensures n == Newlines(s)
  {
    n := 0;
    var p := 0;
    assert s[0..] == s;
    while p < |s|
      invariant 0 <= p <= |s|
      invariant n + Newlines(s[p..]) == Newlines(s)
    {
      assert s[p..][1..] == s[p + 1..];
      n := n + if s[p] == LF then 1 else 0;
      p := p + 1;
    }
  }

  /** When a piece has been read, the chunk before it is the front of the stream, finished by the new flag. */
  lemma StreamTook(tr: Translator, cur: Item, was: seq<Piece>, before: bool, after: bool,
                   next: Item, rest: seq<Piece>, newBefore: bool, newAfter: bool)
    requires NoLoneDash(was) && NoLoneDash(rest) && (cur.kind == Eof ==> was == [])
    requires Took(was, rest, next, before, after, newBefore, newAfter)
    ensures var old_, new_ := Pending(tr, cur, was, before, after), Pending(tr, next, rest, newBefore, newAfter);
            if was != [] && was[0].Open? then old_ == [ESCAPE] == new_
            else if cur.kind == Eof then old_ == [] == new_
            else old_ != [] && old_[0] == Fragment(tr, Finished(cur, newBefore)) && old_[1..] == new_
  {
    StreamSteps(tr, cur, was, before, after);
    if was == [] {
      assert Pending(tr, next, rest, newBefore, newAfter) == [];
    } else if was[0].Open? {
      StreamSteps(tr, next, rest, newBefore, newAfter);
    }
  }

  // ----------------------------------------------------------------------------------------------
  // Draining the reader
  // ----------------------------------------------------------------------------------------------

  lemma FragmentIsNotEscape(tr: Translator, item: Item)
    ensures Fragment(tr, item) != ESCAPE
  {
    var body := Body(tr, item);
    if item.kind == Code {
      assert ([] + body + BLANK)[|body|] == SPACE;
    }
  }

  /** What stands at the front of a stream: an escape exactly if the reader is stuck. */
  lemma StreamFront(tr: Translator, cur: Item, rest: seq<Piece>, before: bool, after: bool)
    requires NoLoneDash(rest) && (cur.kind == Eof ==> rest == [])
    ensures var p := Pending(tr, cur, rest, before, after);
            && (rest != [] && rest[0].Open? ==> p == [ESCAPE])
            && (p != [] && !(rest != [] && rest[0].Open?) ==> p[0] != ESCAPE)
  {
    StreamSteps(tr, cur, rest, before, after);
    FragmentIsNotEscape(tr, Finished(cur, before));
    if rest != [] && rest[0].Tag? {
      FragmentIsNotEscape(tr, Finished(cur, StripsBefore(rest[0].body)));
    }
  }

  /** What the Lua loader gets: it calls the reader until the input ends, or stops at the escape character. */
  method Drain(parser: Parser) returns (code: seq<seq<byte>>)
    requires parser.Valid() && parser.Translating()
    modifies parser
    ensures code == old(parser.Stream())
  {
    code := [];
    ghost var all := parser.Stream();
    var done := false;
    while !done
      invariant parser.Valid()
      invariant if done then code == all else code + parser.Stream() == all
      decreases !done, |parser.Stream()|
    {
      ghost var left, before := parser.Stream(), code;
      StreamFront(parser.tr, parser.ItemOf(parser.curChunk), parser.rest, parser.stripBefore, parser.stripAfter);
      var f := parser.Reader();
      if f.Some? {
        code := code + [f.value];
        TakeFront(before, left);
      }
      done := f.None? || f.value == ESCAPE;
    }
  }

  lemma TakeFront(taken: seq<seq<byte>>, left: seq<seq<byte>>)
    requires left != []
    ensures (taken + [left[0]]) + left[1..] == taken + left
    ensures |left| == 1 ==> taken + [left[0]] == taken + left
  {
  }

  /** The chunks read one by one and trimmed in hindsight are the template compiled in two passes. */
  method CompileTemplate(template: seq<byte>, catalog: Catalog) returns (code: seq<seq<byte>>)
    requires ValidCatalog(catalog) && NoLoneDash(SplitText(template))
    ensures OpenLast(SplitText(template))
    ensures code == Compiled(TranslatorOf(catalog), SplitText(template))
  {
    var parser := new Parser(template, catalog);
    code := Drain(parser);
  }

  /** The ends of the inside of a tag cross for one tag only, the one the model leaves out. */
  lemma LoneDashCrosses(body: seq<byte>)
    ensures var s := if StripsBefore(body) then 1 + Blanks(body[1..]) else 0;
            var e := if StripsAfter(body) then |body| - 1 else |body|;
            e < s <==> body == [MINUS]
  {
    if body != [MINUS] {
      DashesApart(body);
    } else {
      assert body[1..] == [];
    }
  }
}
