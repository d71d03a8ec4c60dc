/** What the dashes of a tag are meant to do, and exactly when the compiler does something else. */
module TemplateIntent {
  import opened Bytes
  import opened LuaString
  import opened TemplateSyntax

  // ----------------------------------------------------------------------------------------------
  // Text behind the last tag
  // ----------------------------------------------------------------------------------------------

  /** Text is to be trimmed on the right exactly if the next tag starts with a dash. */
  predicate NextTagTrims(ps: seq<Piece>, k: nat)
    requires k < |ps|
  {
    k + 1 < |ps| && ps[k + 1].Tag? && StripsBefore(ps[k + 1].body)
  }

  function MeantAt(ps: seq<Piece>, k: nat): Item
    requires k < |ps| && NoLoneDash(ps) && !ps[k].Open?
  {
    match ps[k]
    case Tag(body) => TagItem(body)
    case Text(_) =>
      Item(TextKind, if NextTagTrims(ps, k) then TrimRight(LeftTrimmed(ps, k)) else LeftTrimmed(ps, k))
  }

  predicate EndsInSpace(s: seq<byte>) {
    s != [] && IsSpace(s[|s| - 1])
  }

  lemma {:induction false} TrimRightIsPrefix(s: seq<byte>)
    ensures TrimRight(s) <= s && (TrimRight(s) == s <==> !EndsInSpace(s))
  {
    if EndsInSpace(s) {
      TrimRightIsPrefix(s[..|s| - 1]);
    }
  }

  /** The last text, behind a tag that starts with a dash, ends in whitespace. */
  predicate TrimmedInError(ps: seq<Piece>, k: nat)
    requires k < |ps|
  {
    && ps[k].Text? && k + 1 == |ps| && TagBefore(ps, k) && StripsBefore(ps[k - 1].body)
    && EndsInSpace(LeftTrimmed(ps, k))
  }

  /** The dash of the tag before it trims the text behind the last tag, and no other. */
  lemma StaleTrimIff(ps: seq<Piece>, k: nat)
    requires k < |ps| && NoLoneDash(ps) && !ps[k].Open?
    ensures ItemAt(ps, k) == MeantAt(ps, k) <==> !TrimmedInError(ps, k)
  {
    if ps[k].Text? {
      TrimRightIsPrefix(LeftTrimmed(ps, k));
    }
  }

  // The pieces of the template <%- x %>a followed by a space.
  const TRIMMED_TEMPLATE: seq<Piece> := [Text([]), Tag([MINUS, SPACE, 0x78, SPACE]), Text([0x61, SPACE])]

  /** It is trimmed in error. */
  lemma StaleTrimExample()
    ensures SplitText(TAG_OPEN + [MINUS, SPACE, 0x78, SPACE] + TAG_CLOSE + [0x61, SPACE]) == TRIMMED_TEMPLATE
    ensures NoLoneDash(TRIMMED_TEMPLATE) && Closed(TRIMMED_TEMPLATE)
    ensures MeantAt(TRIMMED_TEMPLATE, 2) == Item(TextKind, [0x61, SPACE])
    ensures ItemAt(TRIMMED_TEMPLATE, 2) == Item(TextKind, [0x61])
  {
    TrimmedTemplateSplits();
    assert [0x61 as byte, SPACE][..1] == [0x61] && TrimRight([0x61]) == [0x61];
  }

  lemma TrimmedTemplateSplits()
    ensures SplitText(TAG_OPEN + [MINUS, SPACE, 0x78, SPACE] + TAG_CLOSE + [0x61, SPACE]) == TRIMMED_TEMPLATE
  {
    var body, text: seq<byte> := [MINUS, SPACE, 0x78, SPACE], [0x61, SPACE];
    OneTag(body, text);
    assert [Text([]), Tag(body), Text(text)] == TRIMMED_TEMPLATE;
  }

  lemma TagParts(body: seq<byte>, text: seq<byte>)
    ensures [] + TAG_OPEN + (body + TAG_CLOSE + text) == TAG_OPEN + body + TAG_CLOSE + text
    ensures [Text([])] + ([Tag(body)] + [Text(text)]) == [Text([]), Tag(body), Text(text)]
  {
  }

  lemma OneTag(body: seq<byte>, text: seq<byte>)
    requires PERCENT !in body && LT !in text && text != []
    ensures SplitText(TAG_OPEN + body + TAG_CLOSE + text) == [Text([]), Tag(body), Text(text)]
  {
    var inner := body + TAG_CLOSE + text;
    NoDelimiter([], LT, PERCENT);
    NoDelimiter(body, PERCENT, GT);
    NoDelimiter(text, LT, PERCENT);
    SplitTextAt([], inner);
    SplitTagAt(body, text);
    TagParts(body, text);
  }

  lemma MatchHas(s: seq<byte>, a: byte, b: byte, i: nat)
    requires MatchesAt(s, [a, b], i)
    ensures a in s
  {
    assert s[i..i + 2][0] == a;
    assert s[i] == a;
  }

  lemma NoDelimiter(s: seq<byte>, a: byte, b: byte)
    requires a !in s
    ensures HasNo(s, [a, b])
  {
    var at := FindFirst(s, [a, b]);
    if at.Some? {
      MatchHas(s, a, b, at.value);
    }
  }

  // ----------------------------------------------------------------------------------------------
  // The whole template
  // ----------------------------------------------------------------------------------------------

  function MeantItems(ps: seq<Piece>, k: nat, n: nat): (items: seq<Item>)
    requires n <= |ps| && NoLoneDash(ps) && forall i | 0 <= i < n :: !ps[i].Open?
    ensures |items| == if k < n then n - k else 0
    ensures forall i | k <= i < n :: items[i - k] == MeantAt(ps, i)
    decreases n - k
  {
    if k >= n then [] else [MeantAt(ps, k)] + MeantItems(ps, k + 1, n)
  }

  /** The direct compiler with the trimming that is meant. */
  function MeantCompiled(tr: Translator, ps: seq<Piece>): seq<seq<byte>>
    requires NoLoneDash(ps) && OpenLast(ps)
  {
    [BLANK] + Fragments(tr, MeantItems(ps, 0, Emitted(ps))) + if Closed(ps) then [] else [ESCAPE]
  }

  lemma {:induction false} EscapeLuaLonger(a: seq<byte>, b: seq<byte>)
    requires a <= b && a != b
    ensures |EscapeLua(a, false)| < |EscapeLua(b, false)|
  {
    if a != [] {
      assert a[0] == b[0] && a[1..] <= b[1..];
      EscapeLuaLonger(a[1..], b[1..]);
    }
  }

  /** Text that is cut off makes another fragment. */
  lemma ShorterTextDiffers(tr: Translator, a: seq<byte>, b: seq<byte>)
    requires a <= b && a != b
    ensures Fragment(tr, Item(TextKind, a)) != Fragment(tr, Item(TextKind, b))
  {
    EscapeLuaLonger(a, b);
  }

  lemma ItemsAreMeantIff(ps: seq<Piece>, n: nat)
    requires n <= |ps| && NoLoneDash(ps) && forall i | 0 <= i < n :: !ps[i].Open?
    ensures |Items(ps, 0, n)| == n
    ensures forall i | 0 <= i < n :: Items(ps, 0, n)[i] == MeantItems(ps, 0, n)[i] <==> !TrimmedInError(ps, i)
  {
    forall i | 0 <= i < n ensures Items(ps, 0, n)[i] == MeantItems(ps, 0, n)[i] <==> !TrimmedInError(ps, i) {
      ItemsAt(ps, 0, n, i);
      StaleTrimIff(ps, i);
    }
  }

  lemma NoErrorIsMeant(tr: Translator, ps: seq<Piece>)
    requires NoLoneDash(ps) && OpenLast(ps) && forall i | 0 <= i < |ps| :: !TrimmedInError(ps, i)
    ensures Compiled(tr, ps) == MeantCompiled(tr, ps)
  {
    ItemsAreMeantIff(ps, Emitted(ps));
    assert Items(ps, 0, Emitted(ps)) == MeantItems(ps, 0, Emitted(ps));
  }

  lemma MeantCompiledAt(tr: Translator, ps: seq<Piece>, k: nat)
    requires NoLoneDash(ps) && Closed(ps) && k < |ps|
    ensures |MeantCompiled(tr, ps)| == 1 + |ps| && MeantCompiled(tr, ps)[k + 1] == Fragment(tr, MeantAt(ps, k))
  {
    var meant := MeantItems(ps, 0, |ps|);
    assert meant[k - 0] == MeantAt(ps, k);
    FragmentsAt(tr, meant, k);
    BehindBlank(Fragments(tr, meant), k);
  }

  lemma ErrorDiffers(tr: Translator, ps: seq<Piece>, k: nat)
    requires k < |ps| && NoLoneDash(ps) && TrimmedInError(ps, k)
    ensures Fragment(tr, ItemAt(ps, k)) != Fragment(tr, MeantAt(ps, k))
  {
    TrimRightIsPrefix(LeftTrimmed(ps, k));
    ShorterTextDiffers(tr, TrimRight(LeftTrimmed(ps, k)), LeftTrimmed(ps, k));
  }

  lemma ErrorIsNotMeant(tr: Translator, ps: seq<Piece>, k: nat)
    requires NoLoneDash(ps) && Closed(ps) && k < |ps| && TrimmedInError(ps, k)
    ensures Compiled(tr, ps) != MeantCompiled(tr, ps)
  {
    CompiledAt(tr, ps, k);
    MeantCompiledAt(tr, ps, k);
    ErrorDiffers(tr, ps, k);
  }

  /** The compiled form is the meant one exactly if no text behind the last tag is trimmed in error. */
  lemma CompiledIsMeantIff(tr: Translator, ps: seq<Piece>)
    requires NoLoneDash(ps) && OpenLast(ps)
    ensures Compiled(tr, ps) == MeantCompiled(tr, ps) <==> !(ps != [] && TrimmedInError(ps, |ps| - 1))
  {
    if ps != [] && TrimmedInError(ps, |ps| - 1) {
      assert Closed(ps);
      ErrorIsNotMeant(tr, ps, |ps| - 1);
    } else {
      NoErrorIsMeant(tr, ps);
    }
  }

  // ----------------------------------------------------------------------------------------------
  // Blanks before the closing dash
  // ----------------------------------------------------------------------------------------------

  function DropBlanks(s: seq<byte>): seq<byte> {
    if s != [] && IsBlank(s[|s| - 1]) then DropBlanks(s[..|s| - 1]) else s
  }

  /** The tag without its dashes and the blanks next to them. */
  function MeantInside(body: seq<byte>): seq<byte>
    requires body != [MINUS]
  {
    if StripsAfter(body) then DropBlanks(Inside(body)) else Inside(body)
  }

  lemma {:induction false} DropBlanksShorter(s: seq<byte>)
    ensures |DropBlanks(s)| <= |s| && (DropBlanks(s) == s <==> s == [] || !IsBlank(s[|s| - 1]))
  {
    if s != [] && IsBlank(s[|s| - 1]) {
      DropBlanksShorter(s[..|s| - 1]);
    }
  }

  /** The blanks stay exactly if there are any: the loop meant to skip them starts on the dash. */
  lemma BlanksBeforeDashIff(body: seq<byte>)
    requires body != [MINUS]
    ensures Inside(body) == MeantInside(body)
            <==> !(StripsAfter(body) && Inside(body) != [] && IsBlank(body[|body| - 2]))
  {
    DashesApart(body);
    DropBlanksShorter(Inside(body));
  }

  /** The tag <%x -%> runs x with its blank. */
  lemma BlanksBeforeDashExample()
    ensures var body: seq<byte> := [0x78, SPACE, MINUS];
            TagItem(body) == Item(Code, [0x78, SPACE]) && MeantInside(body) == [0x78]
  {
    var body: seq<byte> := [0x78, SPACE, MINUS];
    assert Inside(body) == [0x78, SPACE];
    assert [0x78 as byte, SPACE][..1] == [0x78];
    assert DropBlanks([0x78]) == [0x78];
  }
}
