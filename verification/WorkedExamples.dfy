/** Small inputs and the exact bytes that come out. */
module WorkedExamples {
  import opened Bytes
  import opened Utf8
  import opened LuaString
  import opened TemplateSyntax
  import opened TagMeaning

  // ----------------------------------------------------------------------------------------------
  // Filters
  // ----------------------------------------------------------------------------------------------

  /** A Euro sign cut short. */
  lemma CutEuroSign()
    ensures Sanitize([0xE2, 0x82, 0x41]) == Ascii("?A")
  {
    var a: seq<byte> := [0x41];
    assert Encode(0x20AC) == [0xE2, 0x82, 0xAC];
    assert Encode(0x20AC)[..2] + a == [0xE2, 0x82, 0x41];
    TruncatedSequence(0x20AC, 2, a);
    assert a[1..] == [] && Sanitize(a) == a + Sanitize([]);
    assert Ascii("?A") == [QUESTION] + a;
  }

  // ----------------------------------------------------------------------------------------------
  // Templates
  // ----------------------------------------------------------------------------------------------

  /** An include. */
  lemma IncludeHeader(tr: Translator)
    ensures var ps := SplitText(Ascii("<%+header%>"));
            && NoLoneDash(ps) && Closed(ps)
            && Compiled(tr, ps) == [Ascii(" "), Ascii(" "), Ascii("include(\"header\")")]
  {
    IncludeTag();
    IncludeCall();
    PlainTagMeans(tr, 0x2B, Ascii("header"));
  }

  lemma IncludeTag()
    ensures Ascii("<%") + ([0x2B] + Ascii("header")) + Ascii("%>") == Ascii("<%+header%>")
    ensures 0x25 !in Ascii("header") && Ascii("header")[5] != 0x2D
  {
  }

  lemma IncludeCall()
    ensures Ascii("include(\"") + EscapeLua(Ascii("header"), false) + Ascii("\")") == Ascii("include(\"header\")")
  {
    EscapeLuaUnchangedIff(Ascii("header"), false);
  }

  /** A tag that is never closed: not even the text before it comes out, only the escape character. */
  lemma NeverClosed(tr: Translator)
    ensures var ps := SplitText(Ascii("a<%b"));
            NoLoneDash(ps) && OpenLast(ps) && Compiled(tr, ps) == [Ascii(" "), [0x1B]]
  {
    var a, b := Ascii("a"), Ascii("b");
    Literals();
    NoByteNoMatch(a, LT, PERCENT);
    NoByteNoMatch(b, PERCENT, GT);
    SplitTextAt(a, b);
    assert a + TAG_OPEN + b == Ascii("a<%b");
    var ps := [Text(a), Open(b)];
    assert [Text(a)] + [Open(b)] == ps && SplitText(Ascii("a<%b")) == ps;
    assert ps[1].Open? && !Closed(ps);
    assert Emitted(ps) == 0 && Items(ps, 0, 0) == [];
    assert [BLANK] + [] + [ESCAPE] == [BLANK, ESCAPE];
  }
}
