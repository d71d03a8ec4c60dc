/** What the bytes of a template mean: the first byte of a tag, its dashes, and the text around it. */
module TagMeaning {
  import opened Bytes
  import opened XmlText
  import opened LuaString
  import opened TemplateSyntax

  // ----------------------------------------------------------------------------------------------
  // Tags
  // ----------------------------------------------------------------------------------------------

  /** The inside of a tag as it is written: a dash and blanks or nothing, the first byte, more bytes, a dash or
      nothing. */
  datatype TagText = TagText(dash: bool, blanks: seq<byte>, first: byte, more: seq<byte>, endDash: bool)

  function WrittenTag(t: TagText): seq<byte> {
    (if t.dash then [0x2D] + t.blanks else []) + ([t.first] + t.more) + if t.endDash then [0x2D] else []
  }

  /** The dashes and blanks are told apart from what is between them. */
  predicate Readable(t: TagText) {
    && (forall i | 0 <= i < |t.blanks| :: t.blanks[i] == 0x20 || t.blanks[i] == 0x09)
    && (if t.dash then t.first != 0x20 && t.first != 0x09 else t.blanks == [] && t.first != 0x2D)
    && (!t.endDash ==> (if t.more == [] then t.first else t.more[|t.more| - 1]) != 0x2D)
  }

  /** The statement of a tag by its first byte. */
  function Says(tr: Translator, first: byte, more: seq<byte>): Stmt {
    if first == 0x23 then Nothing                                  // #
    else if first == 0x2B && more != [] then Including(more)       // +
    else if first == 0x3D && more != [] then WriteExpr(more)       // =
    else if first == 0x3A && more != [] then Write(EscapeXml(tr(more)))  // :
    else if first == 0x5F && more != [] then Write(tr(more))       // _
    else if first == 0x2B || first == 0x3D || first == 0x3A || first == 0x5F then Nothing
    else Run([first] + more)
  }

  /** Its Lua source. */
  function SourceOf(tr: Translator, first: byte, more: seq<byte>): seq<byte> {
    match Says(tr, first, more)
    case Nothing => Ascii(" ")
    case Including(name) => Ascii("include(\"") + EscapeLua(name, false) + Ascii("\")")
    case WriteExpr(code) => Ascii("write(tostring(") + code + Ascii(" or \"\"))")
    case Write(_) => Ascii("write(\"") + EscapeLua(tr(more), first == 0x3A) + Ascii("\")")
    case Run(code) => code + Ascii(" ")
  }

  lemma {:induction false} BlanksBehind(blanks: seq<byte>, rest: seq<byte>)
    requires forall i | 0 <= i < |blanks| :: IsBlank(blanks[i])
    requires rest != [] && !IsBlank(rest[0])
    ensures Blanks(blanks + rest) == |blanks|
  {
    if blanks == [] {
      assert blanks + rest == rest;
    } else {
      assert (blanks + rest)[1..] == blanks[1..] + rest;
      BlanksBehind(blanks[1..], rest);
    }
  }

  lemma StartOfTag(t: TagText, rest: seq<byte>)
    requires Readable(t)
    ensures var body := (if t.dash then [MINUS] + t.blanks else []) + ([t.first] + rest);
            (if StripsBefore(body) then 1 + Blanks(body[1..]) else 0) == if t.dash then 1 + |t.blanks| else 0
  {
    if t.dash {
      var body := ([MINUS] + t.blanks) + ([t.first] + rest);
      assert body[1..] == t.blanks + ([t.first] + rest);
      BlanksBehind(t.blanks, [t.first] + rest);
    } else {
      assert [] + ([t.first] + rest) == [t.first] + rest;
    }
  }

  lemma PartsOfTag(lead: seq<byte>, inner: seq<byte>, end: seq<byte>)
    requires inner != []
    ensures var body := lead + inner + end;
            && body[|lead|] == inner[0] && body[|lead|..|lead| + |inner|] == inner
            && (end == [] ==> body[|body| - 1] == inner[|inner| - 1])
            && body == lead + ([inner[0]] + (inner[1..] + end))
  {
  }

  lemma InsideIs(body: seq<byte>, s: nat, inner: seq<byte>)
    requires body != [MINUS] && s == if StripsBefore(body) then 1 + Blanks(body[1..]) else 0
    requires s + |inner| == if StripsAfter(body) then |body| - 1 else |body|
    requires body[s..s + |inner|] == inner
    ensures Inside(body) == inner
  {
  }

  /** The program finds what is between the dashes. */
  lemma InsideWritten(t: TagText)
    requires Readable(t)
    ensures WrittenTag(t) != [MINUS] && Inside(WrittenTag(t)) == [t.first] + t.more
  {
    var lead := if t.dash then [MINUS] + t.blanks else [];
    var inner, end := [t.first] + t.more, if t.endDash then [MINUS] else [];
    PartsOfTag(lead, inner, end);
    assert inner[1..] == t.more;
    StartOfTag(t, t.more + end);
    assert StripsAfter(WrittenTag(t)) == t.endDash;
    InsideIs(WrittenTag(t), |lead|, inner);
  }

  lemma Literals()
    ensures TAG_OPEN == Ascii("<%") && TAG_CLOSE == Ascii("%>")
    ensures WRITE_HEAD == Ascii("write(\"") && INCLUDE_HEAD == Ascii("include(\"")
    ensures EXPR_HEAD == Ascii("write(tostring(") && EXPR_TAIL == Ascii(" or \"\"))")
    ensures STRING_TAIL == Ascii("\")") && BLANK == Ascii(" ") && ESCAPE == [0x1B]
  {
  }

  /** The item behind the first byte and the others. */
  function ItemBy(first: byte, more: seq<byte>): Item {
    if first == 0x23 then Item(Comment, more)
    else if first == 0x2B then Item(Include, more)
    else if first == 0x3D then Item(Expr, more)
    else if first == 0x3A then Item(I18n, more)
    else if first == 0x5F then Item(I18nRaw, more)
    else Item(Code, [first] + more)
  }

  lemma ItemOfTag(t: TagText)
    requires Readable(t) && WrittenTag(t) != [MINUS]
    ensures TagItem(WrittenTag(t)) == ItemBy(t.first, t.more)
  {
    InsideWritten(t);
    ItemOfInside(WrittenTag(t), [t.first] + t.more, t.more);
  }

  lemma ItemOfInside(body: seq<byte>, inside: seq<byte>, more: seq<byte>)
    requires body != [MINUS] && Inside(body) == inside && inside != [] && inside[1..] == more
    ensures TagItem(body) == ItemBy(inside[0], more)
  {
    assert [inside[0]] + more == inside;
  }

  lemma FragmentBy(tr: Translator, first: byte, more: seq<byte>)
    ensures Fragment(tr, ItemBy(first, more)) == SourceOf(tr, first, more)
    ensures Meaning(tr, ItemBy(first, more)) == Says(tr, first, more)
  {
    var code := [first] + more;
    Literals();
    assert [] + code + BLANK == code + BLANK;
  }

  lemma FragmentOfTag(tr: Translator, t: TagText)
    requires Readable(t) && WrittenTag(t) != [MINUS]
    ensures Fragment(tr, TagItem(WrittenTag(t))) == SourceOf(tr, t.first, t.more)
    ensures Meaning(tr, TagItem(WrittenTag(t))) == Says(tr, t.first, t.more)
  {
    ItemOfTag(t);
    FragmentBy(tr, t.first, t.more);
  }

  /** For every tag of a template: its fragment is the source its first byte asks for, and denotes it exactly
      if no carriage return gets into a literal. */
  lemma TagMeans(tr: Translator, ps: seq<Piece>, k: nat, t: TagText)
    requires NoLoneDash(ps) && Closed(ps) && k < |ps| && ps[k] == Tag(WrittenTag(t)) && Readable(t)
    ensures |Compiled(tr, ps)| == 1 + |ps| && Compiled(tr, ps)[k + 1] == SourceOf(tr, t.first, t.more)
    ensures var says := Says(tr, t.first, t.more); Denotes(Compiled(tr, ps)[k + 1], says) <==> LiteralOk(says)
  {
    CompiledAt(tr, ps, k);
    FragmentOfTag(tr, t);
    FragmentDenotes(tr, TagItem(WrittenTag(t)));
  }

  lemma HasNoIs(s: seq<byte>, needle: seq<byte>)
    requires forall i: nat :: !MatchesAt(s, needle, i)
    ensures HasNo(s, needle)
  {
    var at := FindFirst(s, needle);
  }

  lemma TwoAreClosed(ps: seq<Piece>)
    requires |ps| == 2 && ps[0].Text? && ps[1].Tag? && ps[1].body != [MINUS]
    ensures NoLoneDash(ps) && Closed(ps)
  {
  }

  /** An empty text before the second piece. */
  lemma ThreeFragments(tr: Translator, ps: seq<Piece>, c: seq<byte>)
    requires NoLoneDash(ps) && Closed(ps) && |ps| == 2 && ps[0] == Text([])
    requires |Compiled(tr, ps)| == 3 && Compiled(tr, ps)[2] == c
    ensures Compiled(tr, ps) == [BLANK, BLANK, c]
  {
    CompiledAt(tr, ps, 0);
    assert ItemAt(ps, 0).payload == [];
    ThreeOf(Compiled(tr, ps), BLANK, BLANK, c);
  }

  /** The template that is one tag. */
  lemma OneTagMeans(tr: Translator, t: TagText)
    requires Readable(t) && forall i: nat :: !MatchesAt(WrittenTag(t), Ascii("%>"), i)
    ensures var ps := SplitText(Ascii("<%") + WrittenTag(t) + Ascii("%>"));
            && NoLoneDash(ps) && Closed(ps)
            && Compiled(tr, ps) == [Ascii(" "), Ascii(" "), SourceOf(tr, t.first, t.more)]
  {
    Literals();
    HasNoIs(WrittenTag(t), Ascii("%>"));
    ClosedTagMeans(tr, t, WrittenTag(t));
  }

  lemma ClosedTagMeans(tr: Translator, t: TagText, body: seq<byte>)
    requires Readable(t) && WrittenTag(t) == body && HasNo(body, TAG_CLOSE)
    ensures var ps := SplitText(TAG_OPEN + body + TAG_CLOSE);
            NoLoneDash(ps) && Closed(ps) && Compiled(tr, ps) == [BLANK, BLANK, SourceOf(tr, t.first, t.more)]
  {
    OneTagSplits(body);
    OneTagSource(tr, t, [Text([]), Tag(body)]);
  }

  lemma OneTagSource(tr: Translator, t: TagText, ps: seq<Piece>)
    requires Readable(t) && |ps| == 2 && ps[0] == Text([]) && ps[1] == Tag(WrittenTag(t))
    ensures NoLoneDash(ps) && Closed(ps)
    ensures Compiled(tr, ps) == [BLANK, BLANK, SourceOf(tr, t.first, t.more)]
  {
    InsideWritten(t);
    TwoAreClosed(ps);
    TagMeans(tr, ps, 1, t);
    ThreeFragments(tr, ps, SourceOf(tr, t.first, t.more));
  }

  /** In particular a tag without dashes and percent signs. */
  lemma PlainTagMeans(tr: Translator, first: byte, more: seq<byte>)
    requires first != 0x2D && more != [] && more[|more| - 1] != 0x2D
    requires first != 0x25 && 0x25 !in more
    ensures var ps := SplitText(Ascii("<%") + ([first] + more) + Ascii("%>"));
            && NoLoneDash(ps) && Closed(ps)
            && Compiled(tr, ps) == [Ascii(" "), Ascii(" "), SourceOf(tr, first, more)]
  {
    var t := TagText(false, [], first, more, false);
    PlainTag(first, more);
    Literals();
    ClosedTagMeans(tr, t, [first] + more);
  }

  lemma PlainTag(first: byte, more: seq<byte>)
    requires first != 0x2D && more != [] && more[|more| - 1] != 0x2D
    requires first != 0x25 && 0x25 !in more
    ensures var t := TagText(false, [], first, more, false); Readable(t) && WrittenTag(t) == [first] + more
    ensures HasNo([first] + more, TAG_CLOSE)
  {
    assert [] + ([first] + more) + [] == [first] + more;
    NoByteNoMatch([first] + more, PERCENT, GT);
  }

  lemma NoByteNoMatch(s: seq<byte>, a: byte, b: byte)
    requires a !in s
    ensures forall i: nat :: !MatchesAt(s, [a, b], i)
    ensures HasNo(s, [a, b])
  {
    forall i: nat ensures !MatchesAt(s, [a, b], i) {
      assert i + 2 <= |s| ==> s[i..i + 2][0] == s[i] && s[i] in s;
    }
    HasNoIs(s, [a, b]);
  }

  lemma ThreeOf(fs: seq<seq<byte>>, a: seq<byte>, b: seq<byte>, c: seq<byte>)
    requires |fs| == 3 && fs[0] == a && fs[1] == b && fs[2] == c
    ensures fs == [a, b, c]
  {
  }

  lemma OneTagSplits(body: seq<byte>)
    requires HasNo(body, TAG_CLOSE)
    ensures SplitText(TAG_OPEN + body + TAG_CLOSE) == [Text([]), Tag(body)]
  {
    var inner := body + TAG_CLOSE + [];
    assert HasNo([], TAG_OPEN);
    SplitTextAt([], inner);
    SplitTagAt(body, []);
    assert SplitText([]) == [];
    assert [] + TAG_OPEN + inner == TAG_OPEN + body + TAG_CLOSE;
    assert [Text([])] + ([Tag(body)] + []) == [Text([]), Tag(body)];
  }

  // ----------------------------------------------------------------------------------------------
  // Text
  // ----------------------------------------------------------------------------------------------

  predicate AllSpace(s: seq<byte>) {
    forall i | 0 <= i < |s| :: IsSpace(s[i])
  }

  /** Whitespace in front is cut, all of it and nothing else. */
  lemma {:induction false} TrimLeftIs(w: seq<byte>, t: seq<byte>)
    requires AllSpace(w) && (t != [] ==> !IsSpace(t[0]))
    ensures TrimLeft(w + t) == t
  {
    if w == [] {
      assert w + t == t;
    } else {
      assert IsSpace(w[0]) && (w + t)[1..] == w[1..] + t;
      TrimLeftIs(w[1..], t);
    }
  }

  lemma {:induction false} TrimRightIs(t: seq<byte>, w: seq<byte>)
    requires AllSpace(w) && (t != [] ==> !IsSpace(t[|t| - 1]))
    ensures TrimRight(t + w) == t
  {
    if w == [] {
      assert t + w == t;
    } else {
      assert IsSpace(w[|w| - 1]) && (t + w)[..|t + w| - 1] == t + w[..|w| - 1];
      TrimRightIs(t, w[..|w| - 1]);
    }
  }

  predicate EndsInDash(ps: seq<Piece>, k: int) {
    0 <= k < |ps| && ps[k].Tag? && ps[k].body != [] && ps[k].body[|ps[k].body| - 1] == 0x2D
  }

  predicate StartsWithDash(ps: seq<Piece>, k: int) {
    0 <= k < |ps| && ps[k].Tag? && ps[k].body != [] && ps[k].body[0] == 0x2D
  }

  /** The tag that decides on the right: the next one, or the last one for the text behind it. */
  function Decider(ps: seq<Piece>, k: nat): int {
    if k + 1 < |ps| then k + 1 else k - 1
  }

  /** What is left of a text between whitespace. */
  function Kept(ps: seq<Piece>, k: nat, before: seq<byte>, t: seq<byte>, behind: seq<byte>): seq<byte> {
    (if EndsInDash(ps, k - 1) then [] else before) + t + if StartsWithDash(ps, Decider(ps, k)) then [] else behind
  }

  /** For every text of a template: whitespace goes by the dashes of the tags around it, the rest is written as
      it is. */
  lemma TextMeans(tr: Translator, ps: seq<Piece>, k: nat, before: seq<byte>, t: seq<byte>, behind: seq<byte>)
    requires NoLoneDash(ps) && Closed(ps) && k < |ps| && ps[k] == Text(before + t + behind)
    requires AllSpace(before) && AllSpace(behind) && t != [] && !IsSpace(t[0]) && !IsSpace(t[|t| - 1])
    ensures var kept := Kept(ps, k, before, t, behind);
            && |Compiled(tr, ps)| == 1 + |ps|
            && Compiled(tr, ps)[k + 1] == Ascii("write(\"") + EscapeLua(kept, false) + Ascii("\")")
            && (Denotes(Compiled(tr, ps)[k + 1], Write(kept)) <==> CR !in kept)
  {
    var kept := Kept(ps, k, before, t, behind);
    CompiledAt(tr, ps, k);
    Literals();
    ItemOfText(ps, k, before, t, behind);
    FragmentDenotes(tr, Item(TextKind, kept));
  }

  lemma ItemOfText(ps: seq<Piece>, k: nat, before: seq<byte>, t: seq<byte>, behind: seq<byte>)
    requires NoLoneDash(ps) && k < |ps| && ps[k] == Text(before + t + behind)
    requires AllSpace(before) && AllSpace(behind) && t != [] && !IsSpace(t[0]) && !IsSpace(t[|t| - 1])
    ensures ItemAt(ps, k) == Item(TextKind, Kept(ps, k, before, t, behind))
  {
    var left := if EndsInDash(ps, k - 1) then [] else before;
    assert before + t + behind == before + (t + behind);
    TrimLeftIs(before, t + behind);
    assert [] + t + behind == t + behind;
    assert LeftTrimmed(ps, k) == left + t + behind;
    TrimRightIs(left + t, behind);
    assert left + t + [] == left + t;
    assert TrimsRight(ps, k) == StartsWithDash(ps, Decider(ps, k));
  }

  lemma TrimSpace(w: seq<byte>)
    requires AllSpace(w)
    ensures TrimLeft(w) == [] && TrimRight(w) == [] && TrimRight([]) == []
  {
    assert w + [] == w && [] + w == w;
    TrimLeftIs(w, []);
    TrimRightIs([], w);
  }

  lemma ItemOfSpace(ps: seq<Piece>, k: nat, w: seq<byte>)
    requires NoLoneDash(ps) && k < |ps| && ps[k] == Text(w) && AllSpace(w)
    ensures ItemAt(ps, k)
            == Item(TextKind, if EndsInDash(ps, k - 1) || StartsWithDash(ps, Decider(ps, k)) then [] else w)
  {
    TrimSpace(w);
    assert LeftTrimmed(ps, k) == if EndsInDash(ps, k - 1) then [] else w;
    assert TrimsRight(ps, k) == StartsWithDash(ps, Decider(ps, k));
  }

  /** Nothing is left of whitespace with a dash at either side. */
  lemma SpaceMeans(tr: Translator, ps: seq<Piece>, k: nat, w: seq<byte>)
    requires NoLoneDash(ps) && Closed(ps) && k < |ps| && ps[k] == Text(w) && AllSpace(w)
    ensures |Compiled(tr, ps)| == 1 + |ps| && Compiled(tr, ps)[0] == Ascii(" ")
    ensures Compiled(tr, ps)[k + 1]
            == if w == [] || EndsInDash(ps, k - 1) || StartsWithDash(ps, Decider(ps, k)) then Ascii(" ")
               else Ascii("write(\"") + EscapeLua(w, false) + Ascii("\")")
  {
    CompiledAt(tr, ps, k);
    Literals();
    ItemOfSpace(ps, k, w);
  }

  // ----------------------------------------------------------------------------------------------
  // Templates with a tag that is never closed
  // ----------------------------------------------------------------------------------------------

  /** The text in front of the open tag and the tag itself do not come out; in their place stands the escape
      character, which no Lua source may hold. */
  lemma OpenTemplateMeans(tr: Translator, ps: seq<Piece>, k: nat)
    requires NoLoneDash(ps) && OpenLast(ps) && !Closed(ps) && 2 <= |ps|
    ensures |Compiled(tr, ps)| == |ps| && Compiled(tr, ps)[|ps| - 1] == [0x1B]
    ensures k + 2 < |ps| ==> Compiled(tr, ps)[k + 1] == Fragment(tr, ItemAt(ps, k))
  {
    var n := |ps| - 2;
    var items := Items(ps, 0, n);
    var fs := Fragments(tr, items);
    if k < n {
      ItemsAt(ps, 0, n, k);
      FragmentsAt(tr, items, k);
    }
    Between(BLANK, fs, ESCAPE);
  }

  lemma Between(a: seq<byte>, fs: seq<seq<byte>>, b: seq<byte>)
    ensures var all := [a] + fs + [b];
            && |all| == |fs| + 2 && all[|fs| + 1] == b
            && forall i | 0 <= i < |fs| :: all[i + 1] == fs[i]
  {
  }
}
