/** What a template is, and what its compiled form is: the reference for template_parser.c. */
module TemplateSyntax {
  import opened Bytes
  import opened XmlText
  import opened LuaString

  // ----------------------------------------------------------------------------------------------
  // Splitting a template
  // ----------------------------------------------------------------------------------------------

  const TAG_OPEN: seq<byte> := [LT, PERCENT]
  const TAG_CLOSE: seq<byte> := [PERCENT, GT]

  predicate MatchesAt(hay: seq<byte>, needle: seq<byte>, i: nat) {
    i + |needle| <= |hay| && hay[i..i + |needle|] == needle
  }

  /** The first place where the needle stands. */
  function FindFirst(hay: seq<byte>, needle: seq<byte>): (at: Option<nat>)
    ensures at.Some? ==> MatchesAt(hay, needle, at.value)
  {
    FindFrom(hay, needle, 0)
  }

  function FindFrom(hay: seq<byte>, needle: seq<byte>, i: nat): (at: Option<nat>)
    ensures at.Some? ==> i <= at.value && MatchesAt(hay, needle, at.value)
    decreases |hay| - i
  {
    if i + |needle| > |hay| then None
    else if MatchesAt(hay, needle, i) then Some(i)
    else if i == |hay| then None
    else FindFrom(hay, needle, i + 1)
  }

  /** Nothing before the result matches; None if nothing does. */
  lemma {:induction false} FindFromMatches(hay: seq<byte>, needle: seq<byte>, i: nat)
    ensures var at := FindFrom(hay, needle, i);
            forall j | i <= j && (at.Some? ==> j < at.value) :: !MatchesAt(hay, needle, j)
    decreases |hay| - i
  {
    if i + |needle| <= |hay| && !MatchesAt(hay, needle, i) && i < |hay| {
      FindFromMatches(hay, needle, i + 1);
    }
  }

  lemma FindFirstMatches(hay: seq<byte>, needle: seq<byte>)
    ensures var at := FindFirst(hay, needle);
            forall j | 0 <= j && (at.Some? ==> j < at.value) :: !MatchesAt(hay, needle, j)
  {
    FindFromMatches(hay, needle, 0);
  }

  lemma FindFirstIs(hay: seq<byte>, needle: seq<byte>, n: nat)
    requires MatchesAt(hay, needle, n) && forall i | 0 <= i < n :: !MatchesAt(hay, needle, i)
    ensures FindFirst(hay, needle) == Some(n)
  {
    FindFirstMatches(hay, needle);
  }

  /** Text, the inside of a tag, and the rest behind a tag that is never closed. */
  datatype Piece = Text(text: seq<byte>) | Tag(body: seq<byte>) | Open(rest: seq<byte>)

  function SplitText(t: seq<byte>): seq<Piece>
    decreases |t|
  {
    var at := FindFirst(t, TAG_OPEN);
    if at.None? then if t == [] then [] else [Text(t)]
    else [Text(t[..at.value])] + SplitTag(t[at.value + 2..])
  }

  function SplitTag(t: seq<byte>): (ps: seq<Piece>)
    ensures ps != [] && !ps[0].Text?
    decreases |t|
  {
    var at := FindFirst(t, TAG_CLOSE);
    if at.None? then [Open(t)]
    else [Tag(t[..at.value])] + SplitText(t[at.value + 2..])
  }

  predicate Closed(ps: seq<Piece>) {
    forall k | 0 <= k < |ps| :: !ps[k].Open?
  }

  // ----------------------------------------------------------------------------------------------
  // Splitting loses nothing and is the only way to read a template
  // ----------------------------------------------------------------------------------------------

  function Render(ps: seq<Piece>): seq<byte> {
    if ps == [] then [] else
      (match ps[0]
       case Text(text) => text
       case Tag(body) => TAG_OPEN + body + TAG_CLOSE
       case Open(rest) => TAG_OPEN + rest) + Render(ps[1..])
  }

  lemma RenderCons(p: Piece, ps: seq<Piece>)
    ensures Render([p] + ps)
            == (match p
                case Text(text) => text
                case Tag(body) => TAG_OPEN + body + TAG_CLOSE
                case Open(rest) => TAG_OPEN + rest) + Render(ps)
  {
    assert ([p] + ps)[1..] == ps;
  }

  lemma CutAt(t: seq<byte>, needle: seq<byte>, at: nat)
    requires MatchesAt(t, needle, at)
    ensures t == t[..at] + needle + t[at + |needle|..]
  {
  }

  lemma TagText(b: seq<byte>, rest: seq<byte>)
    ensures (TAG_OPEN + b + TAG_CLOSE) + rest == TAG_OPEN + (b + TAG_CLOSE + rest)
  {
  }

  lemma TextTag(v: seq<byte>, inner: seq<byte>)
    ensures v + (TAG_OPEN + inner) == v + TAG_OPEN + inner
  {
  }

  /** The pieces put together again are the template. */
  lemma {:induction false} SplitLosesNothing(t: seq<byte>)
    ensures Render(SplitText(t)) == t
    decreases |t|
  {
    var at := FindFirst(t, TAG_OPEN);
    if at.Some? {
      var rest := t[at.value + 2..];
      SplitTagLosesNothing(rest);
      RenderCons(Text(t[..at.value]), SplitTag(rest));
      FindFirstMatches(t, TAG_OPEN);
      CutAt(t, TAG_OPEN, at.value);
    } else if t != [] {
      RenderCons(Text(t), []);
      assert [Text(t)] + [] == [Text(t)];
    }
  }

  lemma {:induction false} SplitTagLosesNothing(t: seq<byte>)
    ensures Render(SplitTag(t)) == TAG_OPEN + t
    decreases |t|
  {
    var at := FindFirst(t, TAG_CLOSE);
    if at.Some? {
      var rest := t[at.value + 2..];
      SplitLosesNothing(rest);
      RenderCons(Tag(t[..at.value]), SplitText(rest));
      TagText(t[..at.value], rest);
      FindFirstMatches(t, TAG_CLOSE);
      CutAt(t, TAG_CLOSE, at.value);
    } else {
      RenderCons(Open(t), []);
      assert [Open(t)] + [] == [Open(t)];
    }
  }

  predicate HasNo(s: seq<byte>, needle: seq<byte>) {
    FindFirst(s, needle).None?
  }

  /** The lists of pieces a template can have: text first, tags and texts in turn, no delimiter inside, no
      empty text at the end. */
  predicate ProperText(ps: seq<Piece>)
    decreases |ps|
  {
    ps != [] ==>
      && ps[0].Text? && HasNo(ps[0].text, TAG_OPEN)
      && (if |ps| == 1 then ps[0].text != [] else ProperTag(ps[1..]))
  }

  predicate ProperTag(ps: seq<Piece>)
    decreases |ps|
  {
    && ps != [] && !ps[0].Text?
    && (if ps[0].Open? then |ps| == 1 && HasNo(ps[0].rest, TAG_CLOSE)
        else HasNo(ps[0].body, TAG_CLOSE) && ProperText(ps[1..]))
  }

  lemma FindDelimiter(s: seq<byte>, a: byte, b: byte, rest: seq<byte>)
    requires a != b && HasNo(s, [a, b])
    ensures FindFirst(s + [a, b] + rest, [a, b]) == Some(|s|)
  {
    var hay, needle := s + [a, b] + rest, [a, b];
    FindFirstMatches(s, needle);
    forall i | 0 <= i < |s| ensures !MatchesAt(hay, needle, i) {
      assert !MatchesAt(s, needle, i);
      if i + 2 <= |s| {
        assert hay[i..i + 2] == s[i..i + 2];
      } else {
        assert hay[i + 1] == a;
        assert hay[i..i + 2][1] == a;
      }
    }
    assert hay[|s|..|s| + 2] == needle;
    FindFirstIs(hay, needle, |s|);
  }

  /** Every proper list of pieces is the splitting of its text, so a template has one reading only. */
  lemma {:induction false} SplitTextInverse(ps: seq<Piece>)
    requires ProperText(ps)
    ensures SplitText(Render(ps)) == ps
    decreases |ps|
  {
    if ps == [] {
      assert HasNo([], TAG_OPEN);
    } else if |ps| == 1 {
      assert Render(ps[1..]) == [];
      assert Render(ps) == ps[0].text + [] == ps[0].text;
    } else {
      var v := ps[0].text;
      var inner := SplitTagInverse(ps[1..]);
      SplitTextAt(v, inner);
      assert [Text(v)] + ps[1..] == ps;
      TextTag(v, inner);
    }
  }

  lemma SplitTextAt(v: seq<byte>, inner: seq<byte>)
    requires HasNo(v, TAG_OPEN)
    ensures SplitText(v + TAG_OPEN + inner) == [Text(v)] + SplitTag(inner)
  {
    var t := v + TAG_OPEN + inner;
    FindDelimiter(v, LT, PERCENT, inner);
    assert t[|v| + 2..] == inner && t[..|v|] == v;
  }

  lemma SplitTagAt(b: seq<byte>, rest: seq<byte>)
    requires HasNo(b, TAG_CLOSE)
    ensures SplitTag(b + TAG_CLOSE + rest) == [Tag(b)] + SplitText(rest)
  {
    var t := b + TAG_CLOSE + rest;
    FindDelimiter(b, PERCENT, GT, rest);
    assert t[|b| + 2..] == rest && t[..|b|] == b;
  }

  /** `inner` is what stands behind the opening delimiter of the first tag. */
  lemma {:induction false} SplitTagInverse(ps: seq<Piece>) returns (inner: seq<byte>)
    requires ProperTag(ps)
    ensures Render(ps) == TAG_OPEN + inner && SplitTag(inner) == ps
    decreases |ps|
  {
    if ps[0].Open? {
      inner := ps[0].rest;
      assert Render(ps[1..]) == [];
    } else {
      var b, rest := ps[0].body, Render(ps[1..]);
      inner := b + TAG_CLOSE + rest;
      SplitTextInverse(ps[1..]);
      SplitTagAt(b, rest);
      TagText(b, rest);
    }
  }

  // ----------------------------------------------------------------------------------------------
  // Tags
  // ----------------------------------------------------------------------------------------------

  datatype Kind = Init | TextKind | Comment | Expr | Include | I18n | I18nRaw | Code | Eof

  /** A chunk to format: what it is and the bytes between its two ends. */
  datatype Item = Item(kind: Kind, payload: seq<byte>)

  predicate StripsBefore(body: seq<byte>) {
    body != [] && body[0] == MINUS
  }

  predicate StripsAfter(body: seq<byte>) {
    body != [] && body[|body| - 1] == MINUS
  }

  function Blanks(s: seq<byte>): (n: nat)
    ensures n <= |s|
    ensures forall i | 0 <= i < n :: IsBlank(s[i])
    ensures n < |s| ==> !IsBlank(s[n])
  {
    if s == [] || !IsBlank(s[0]) then 0 else 1 + Blanks(s[1..])
  }

  /** The tag without its dashes. Blanks go with the dash in front, but stay in front of the last one. The tag
      that is one dash only has no such inside: its end would come before its start. */
  function Inside(body: seq<byte>): seq<byte>
    requires body != [MINUS]
  {
    var s := if StripsBefore(body) then 1 + Blanks(body[1..]) else 0;
    var e := if StripsAfter(body) then |body| - 1 else |body|;
    DashesApart(body);
    body[s..e]
  }

  lemma DashesApart(body: seq<byte>)
    requires body != [MINUS]
    ensures StripsBefore(body) && StripsAfter(body) ==> 1 + Blanks(body[1..]) <= |body| - 1
  {
    if StripsBefore(body) && StripsAfter(body) {
      assert body[..1] == [MINUS];
      assert |body| > 1;
      assert !IsBlank(body[1..][|body| - 2]);
    }
  }

  function KindFor(first: byte): Kind {
    if first == HASH then Comment
    else if first == PLUS then Include
    else if first == COLON then I18n
    else if first == UNDERSCORE then I18nRaw
    else if first == EQUALS then Expr
    else Code
  }

  function KindOf(inside: seq<byte>): Kind {
    if inside == [] then Code else KindFor(inside[0])
  }

  function TagItem(body: seq<byte>): Item
    requires body != [MINUS]
  {
    var inside := Inside(body);
    Item(KindOf(inside), if KindOf(inside) == Code then inside else inside[1..])
  }

  // ----------------------------------------------------------------------------------------------
  // Trimming
  // ----------------------------------------------------------------------------------------------

  function TrimLeft(s: seq<byte>): seq<byte> {
    if s != [] && IsSpace(s[0]) then TrimLeft(s[1..]) else s
  }

  function TrimRight(s: seq<byte>): seq<byte> {
    if s != [] && IsSpace(s[|s| - 1]) then TrimRight(s[..|s| - 1]) else s
  }

  /** No tag is a lone dash. */
  predicate NoLoneDash(ps: seq<Piece>) {
    forall k | 0 <= k < |ps| :: ps[k].Tag? ==> ps[k].body != [MINUS]
  }

  predicate TagBefore(ps: seq<Piece>, k: nat)
    requires k < |ps|
  {
    k > 0 && ps[k - 1].Tag?
  }

  /** Text is trimmed on the left if the tag before it ends in a dash. */
  predicate TrimsLeft(ps: seq<Piece>, k: nat)
    requires k < |ps|
  {
    TagBefore(ps, k) && StripsAfter(ps[k - 1].body)
  }

  /** Text is trimmed on the right if the tag behind it starts with a dash. The text behind the last tag is
      trimmed by the dash that this last tag starts with. */
  predicate TrimsRight(ps: seq<Piece>, k: nat)
    requires k < |ps|
  {
    if k + 1 < |ps| then ps[k + 1].Tag? && StripsBefore(ps[k + 1].body)
    else TagBefore(ps, k) && StripsBefore(ps[k - 1].body)
  }

  function LeftTrimmed(ps: seq<Piece>, k: nat): seq<byte>
    requires k < |ps| && ps[k].Text?
  {
    if TrimsLeft(ps, k) then TrimLeft(ps[k].text) else ps[k].text
  }

  /** The second pass, on the piece at `k` and its neighbours. */
  function ItemAt(ps: seq<Piece>, k: nat): Item
    requires k < |ps| && NoLoneDash(ps) && !ps[k].Open?
  {
    match ps[k]
    case Tag(body) => TagItem(body)
    case Text(_) =>
      Item(TextKind, if TrimsRight(ps, k) then TrimRight(LeftTrimmed(ps, k)) else LeftTrimmed(ps, k))
  }

  // ----------------------------------------------------------------------------------------------
  // Code generation
  // ----------------------------------------------------------------------------------------------

  const BLANK: seq<byte> := [SPACE]
  const ESCAPE: seq<byte> := [0x1B]
  const CLOSE_PAREN: seq<byte> := [0x29]
  // write("
  const WRITE_HEAD: seq<byte> := [0x77, 0x72, 0x69, 0x74, 0x65, 0x28, QUOTE]
  // include("
  const INCLUDE_HEAD: seq<byte> := [0x69, 0x6E, 0x63, 0x6C, 0x75, 0x64, 0x65, 0x28, QUOTE]
  // write(tostring(
  const EXPR_HEAD: seq<byte> := [0x77, 0x72, 0x69, 0x74, 0x65, 0x28,
                                 0x74, 0x6F, 0x73, 0x74, 0x72, 0x69, 0x6E, 0x67, 0x28]
  //  or ""))
  const EXPR_TAIL: seq<byte> := [SPACE, 0x6F, 0x72, SPACE, QUOTE, QUOTE, 0x29, 0x29]
  // ")
  const STRING_TAIL: seq<byte> := [QUOTE, 0x29]

  /** The table of leading and trailing code; the entry for code has no head and ends in a space. */
  function Head(kind: Kind): seq<byte> {
    match kind
    case TextKind | I18n | I18nRaw => WRITE_HEAD
    case Expr => EXPR_HEAD
    case Include => INCLUDE_HEAD
    case _ => []
  }

  function Tail(kind: Kind): seq<byte> {
    match kind
    case TextKind | I18n | I18nRaw | Include => STRING_TAIL
    case Expr => EXPR_TAIL
    case Code => BLANK
    case _ => []
  }

  /** The text that stands in for a message. */
  type Translator = seq<byte> -> seq<byte>

  function Body(tr: Translator, item: Item): seq<byte>
  {
    match item.kind
    case TextKind | Include => EscapeLua(item.payload, false)
    case I18n => EscapeLua(tr(item.payload), true)
    case I18nRaw => EscapeLua(tr(item.payload), false)
    case Expr | Code => item.payload
    case _ => []
  }

  /** One fragment of Lua source; never empty, since an empty fragment would end the input. */
  function Fragment(tr: Translator, item: Item): (f: seq<byte>)
    ensures f != []
  {
    var code := Head(item.kind) + Body(tr, item) + Tail(item.kind);
    if item.payload == [] || code == [] then BLANK else code
  }

  /** The second pass over the pieces from `k` to `n`. */
  function Items(ps: seq<Piece>, k: nat, n: nat): (items: seq<Item>)
    requires n <= |ps| && NoLoneDash(ps) && forall i | 0 <= i < n :: !ps[i].Open?
    ensures |items| == if k < n then n - k else 0
    decreases n - k
  {
    if k >= n then [] else [ItemAt(ps, k)] + Items(ps, k + 1, n)
  }

  function Fragments(tr: Translator, items: seq<Item>): (fs: seq<seq<byte>>)
    ensures |fs| == |items|
  {
    if items == [] then [] else [Fragment(tr, items[0])] + Fragments(tr, items[1..])
  }

  /** How many pieces get their fragment: all, or, in front of a tag that is never closed, all but the text
      that stands before it. */
  function Emitted(ps: seq<Piece>): (n: nat)
    ensures n <= |ps|
  {
    if Closed(ps) then |ps| else if |ps| >= 2 then |ps| - 2 else 0
  }

  /** The open piece is the last one. */
  predicate OpenLast(ps: seq<Piece>) {
    forall k | 0 <= k < |ps| :: ps[k].Open? ==> k == |ps| - 1
  }

  /** The direct compiler: a blank for the initial chunk, a fragment for every piece, and an escape character,
      which Lua rejects, instead of the last two pieces if a tag is left open. */
  function Compiled(tr: Translator, ps: seq<Piece>): seq<seq<byte>>
    requires NoLoneDash(ps) && OpenLast(ps)
  {
    [BLANK] + Fragments(tr, Items(ps, 0, Emitted(ps))) + if Closed(ps) then [] else [ESCAPE]
  }

  // ----------------------------------------------------------------------------------------------
  // What the generated code means
  // ----------------------------------------------------------------------------------------------

  /** The statement of a fragment. */
  datatype Stmt = Nothing | Write(text: seq<byte>) | Including(name: seq<byte>) | WriteExpr(code: seq<byte>)
    | Run(code: seq<byte>)

  /** The call with a string literal behind the head, as Lua reads it. */
  ghost predicate IsCall(f: seq<byte>, head: seq<byte>, argument: seq<byte>) {
    exists literal :: f == head + literal && LexString(literal) == Some(Lexed(argument, CLOSE_PAREN))
  }

  ghost predicate Denotes(f: seq<byte>, stmt: Stmt) {
    match stmt
    case Nothing => f == BLANK
    case Write(text) => IsCall(f, WRITE_HEAD, text)
    case Including(name) => IsCall(f, INCLUDE_HEAD, name)
    case WriteExpr(code) => f == EXPR_HEAD + code + EXPR_TAIL
    case Run(code) => f == code + BLANK
  }

  /** What a piece of the template says. */
  function Meaning(tr: Translator, item: Item): Stmt
  {
    if item.payload == [] then Nothing else
      match item.kind
      case TextKind => Write(item.payload)
      case Include => Including(item.payload)
      case I18n => Write(EscapeXml(tr(item.payload)))
      case I18nRaw => Write(tr(item.payload))
      case Expr => WriteExpr(item.payload)
      case Code => Run(item.payload)
      case _ => Nothing
  }

  /** A carriage return in a literal is a line break for Lua. */
  predicate LiteralOk(stmt: Stmt) {
    match stmt
    case Write(text) => CR !in text
    case Including(name) => CR !in name
    case _ => true
  }

  lemma {:induction false} EscapeXmlKeepsCr(s: seq<byte>)
    ensures CR in EscapeXml(s) <==> CR in s
  {
    if s != [] {
      EscapeXmlKeepsCr(s[1..]);
      assert s == [s[0]] + s[1..];
      assert CR in EscapeByte(s[0]) <==> s[0] == CR;
    }
  }

  lemma CallOfEscaped(head: seq<byte>, s: seq<byte>, xml: bool)
    ensures var text := if xml then EscapeXml(s) else s;
            IsCall(head + EscapeLua(s, xml) + STRING_TAIL, head, text) <==> CR !in text
  {
    var literal := EscapeLua(s, xml) + [QUOTE] + CLOSE_PAREN;
    var f := head + EscapeLua(s, xml) + STRING_TAIL;
    assert f == head + literal;
    LexEscaped(s, xml, CLOSE_PAREN);
    EscapeXmlKeepsCr(s);
    forall other | f == head + other ensures other == literal {
      assert other == f[|head|..] == literal;
    }
  }

  /** A fragment denotes what its piece says, exactly if no carriage return gets into a literal. */
  lemma FragmentDenotes(tr: Translator, item: Item)
    ensures Denotes(Fragment(tr, item), Meaning(tr, item)) <==> LiteralOk(Meaning(tr, item))
  {
    if item.payload != [] {
      match item.kind
      case TextKind => CallOfEscaped(WRITE_HEAD, item.payload, false);
      case Include => CallOfEscaped(INCLUDE_HEAD, item.payload, false);
      case I18n => CallOfEscaped(WRITE_HEAD, tr(item.payload), true);
      case I18nRaw => CallOfEscaped(WRITE_HEAD, tr(item.payload), false);
      case _ =>
    }
  }

  lemma {:induction false} ItemsAt(ps: seq<Piece>, k: nat, n: nat, i: nat)
    requires k <= i < n <= |ps| && NoLoneDash(ps) && forall i | 0 <= i < n :: !ps[i].Open?
    ensures Items(ps, k, n)[i - k] == ItemAt(ps, i)
    decreases n - k
  {
    var all, rest := Items(ps, k, n), Items(ps, k + 1, n);
    assert all == [ItemAt(ps, k)] + rest;
    if k < i {
      ItemsAt(ps, k + 1, n, i);
      assert all[i - k] == rest[i - (k + 1)];
    }
  }

  lemma {:induction false} FragmentsAt(tr: Translator, items: seq<Item>, i: nat)
    requires i < |items|
    ensures Fragments(tr, items)[i] == Fragment(tr, items[i])
  {
    if i > 0 {
      FragmentsAt(tr, items[1..], i - 1);
    }
  }

  lemma CompiledAt(tr: Translator, ps: seq<Piece>, k: nat)
    requires NoLoneDash(ps) && Closed(ps) && k < |ps|
    ensures |Compiled(tr, ps)| == 1 + |ps| && Compiled(tr, ps)[0] == BLANK
    ensures Compiled(tr, ps)[k + 1] == Fragment(tr, ItemAt(ps, k))
  {
    var items := Items(ps, 0, |ps|);
    ItemsAt(ps, 0, |ps|, k);
    FragmentsAt(tr, items, k);
    BehindBlank(Fragments(tr, items), k);
  }

  lemma BehindBlank(fs: seq<seq<byte>>, k: nat)
    requires k < |fs|
    ensures |[BLANK] + fs + []| == 1 + |fs|
    ensures ([BLANK] + fs + [])[0] == BLANK && ([BLANK] + fs + [])[k + 1] == fs[k]
  {
  }

  /** The statements of the generated code are, in order, what the pieces of the template say: behind the
      initial blank the fragment of every piece denotes the meaning of that piece. */
  lemma CompiledDenotes(tr: Translator, ps: seq<Piece>, k: nat)
    requires NoLoneDash(ps) && Closed(ps) && k < |ps|
    ensures |Compiled(tr, ps)| == 1 + |ps| && Denotes(Compiled(tr, ps)[0], Nothing)
    ensures var meaning := Meaning(tr, ItemAt(ps, k));
            Denotes(Compiled(tr, ps)[k + 1], meaning) <==> LiteralOk(meaning)
  {
    CompiledAt(tr, ps, k);
    FragmentDenotes(tr, ItemAt(ps, k));
  }
}
