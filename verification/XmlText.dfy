/** XML escaping: `pcdata` (template_utils.c) and the decimal references every filter writes. */
module XmlText {
  import opened Bytes
  import opened Buffer
  import opened Utf8

  /** The five bytes that are never written raw. */
  predicate IsSpecial(c: byte) {
    c == AMP || c == APOS || c == QUOTE || c == LT || c == GT
  }

  /** Bytes that XML 1.0 section 2.2 does not allow, and DEL. */
  predicate IsControl(c: byte) {
    c <= 0x08 || 0x0B <= c <= 0x0C || 0x0E <= c <= 0x1F || c == 0x7F
  }

  /** The text of snprintf("&#%i;") for a two-digit code. */
  function Ref(c: byte): (r: seq<byte>)
    requires 10 <= c < 100
    ensures |r| == 5
  {
    [AMP, HASH, 0x30 + c / 10, 0x30 + c % 10, SEMI]
  }

  function EscapeByte(c: byte): seq<byte> {
    if IsSpecial(c) then Ref(c) else [c]
  }

  function EscapeXml(s: seq<byte>): seq<byte> {
    if s == [] then [] else EscapeByte(s[0]) + EscapeXml(s[1..])
  }

  function StripControls(s: seq<byte>): seq<byte> {
    if s == [] then []
    else if IsControl(s[0]) then StripControls(s[1..])
    else [s[0]] + StripControls(s[1..])
  }

  // ----------------------------------------------------------------------------------------------
  // pcdata
  // ----------------------------------------------------------------------------------------------

  /** One turn of the loop of `pcdata`. */
  function PcdataToken(s: seq<byte>): (t: Token)
    requires s != []
    ensures 1 <= t.len <= |s|
  {
    if IsControl(s[0]) then Token([], 1)
    else if IsSpecial(s[0]) then Token(Ref(s[0]), 1)
    else if s[0] <= 0x7F then Token([s[0]], 1)
    else NextToken(s)
  }

  /** The text `pcdata` returns. */
  function Pcdata(s: seq<byte>): seq<byte> {
    if s == [] then [] else
      var t := PcdataToken(s);
      t.emit + Pcdata(s[t.len..])
  }

  /** `done` is the output for the first `o` bytes. */
  ghost predicate Escaped(s: seq<byte>, o: nat, done: seq<byte>) {
    o <= |s| && done + Pcdata(s[o..]) == Pcdata(s)
  }

  lemma PcdataFrom(s: seq<byte>, o: nat)
    requires o < |s|
    ensures var t := PcdataToken(s[o..]); o + t.len <= |s| && Pcdata(s[o..]) == t.emit + Pcdata(s[o + t.len..])
  {
    var t := PcdataToken(s[o..]);
    assert s[o..][t.len..] == s[o + t.len..];
  }

  lemma EscapedMove(s: seq<byte>, o: nat, done: seq<byte>, next: nat, emit: seq<byte>)
    requires o <= next <= |s| && Escaped(s, o, done) && Pcdata(s[o..]) == emit + Pcdata(s[next..])
    ensures Escaped(s, next, done + emit)
  {
    MoveOver(Pcdata(s), done, emit, Pcdata(s[o..]), Pcdata(s[next..]), done + emit);
  }

  lemma EscapedStep(s: seq<byte>, o: nat, done: seq<byte>, next: nat, now: seq<byte>)
    requires o < |s| && Escaped(s, o, done)
    requires var t := PcdataToken(s[o..]); next == o + t.len && now == done + t.emit
    ensures Escaped(s, next, now)
  {
    var emit := PcdataToken(s[o..]).emit;
    PcdataFrom(s, o);
    EscapedMove(s, o, done, next, emit);
    assert now == done + emit;
  }

  lemma EscapedEnds(s: seq<byte>, done: seq<byte>)
    ensures Escaped(s, 0, [])
    ensures Escaped(s, |s|, done) ==> done == Pcdata(s)
  {
    assert s[0..] == s && s[|s|..] == [];
    assert done + [] == done;
  }

  /** The branches of the loop of `pcdata`: `extra` is what the sanitizer adds to the loop counter. */
  method PcdataBranch(s: seq<byte>, ptr: nat, buf: TemplateBuffer) returns (next: nat, extra: nat)
    requires ptr < |s| && buf.Valid()
    modifies buf, buf.data
    ensures buf.Valid() && (buf.data == old(buf.data) || fresh(buf.data))
    ensures var t := PcdataToken(s[ptr..]);
            next == ptr + t.len && extra == t.len - 1 && buf.Contents() == old(buf.Contents()) + t.emit
  {
    next, extra := ptr, 0;
    if IsControl(s[ptr]) {
      next := next + 1;
    } else if IsSpecial(s[ptr]) {
      buf.Append(Ref(s[ptr]));
      next := next + 1;
    } else if s[ptr] <= 0x7F {
      buf.PutChar(s[ptr]);
      next := next + 1;
    } else {
      assert s[ptr..ptr + (|s| - ptr)] == s[ptr..];
      var v;
      next, v := Validate(s, ptr, |s| - ptr, buf);
      extra := v - 1;
    }
  }

  /** The body of the loop. */
  method PcdataTurn(s: seq<byte>, ptr: nat, buf: TemplateBuffer) returns (next: nat, extra: nat)
    requires ptr < |s| && buf.Valid() && Escaped(s, ptr, buf.Contents())
    modifies buf, buf.data
    ensures buf.Valid() && (buf.data == old(buf.data) || fresh(buf.data))
    ensures next == ptr + extra + 1 && Escaped(s, next, buf.Contents())
  {
    ghost var done := buf.Contents();
    next, extra := PcdataBranch(s, ptr, buf);
    EscapedStep(s, ptr, done, next, buf.Contents());
  }

  method PcdataString(s: seq<byte>) returns (text: array<byte>)
    ensures HoldsString(text[..], Pcdata(s))
  {
    var buf := new TemplateBuffer(|s|);
    var ptr: nat := 0;
    var o: nat := 0;
    EscapedEnds(s, []);
    while o < |s|
      invariant ptr == o <= |s|
      invariant buf.Valid() && fresh(buf) && fresh(buf.data)
      invariant Escaped(s, o, buf.Contents())
    {
      var extra;
      ptr, extra := PcdataTurn(s, ptr, buf);
      o := o + extra + 1;
    }
    EscapedEnds(s, buf.Contents());
    text := buf.Destroy();
  }

  // ----------------------------------------------------------------------------------------------
  // pcdata = escape after strip after sanitize
  // ----------------------------------------------------------------------------------------------

  lemma {:induction false} StripControlsConcat(a: seq<byte>, b: seq<byte>)
    ensures StripControls(a + b) == StripControls(a) + StripControls(b)
  {
    if a == [] {
      assert a + b == b;
    } else {
      assert (a + b)[1..] == a[1..] + b;
      StripControlsConcat(a[1..], b);
    }
  }

  lemma {:induction false} EscapeXmlConcat(a: seq<byte>, b: seq<byte>)
    ensures EscapeXml(a + b) == EscapeXml(a) + EscapeXml(b)
  {
    if a == [] {
      assert a + b == b;
    } else {
      assert (a + b)[1..] == a[1..] + b;
      EscapeXmlConcat(a[1..], b);
      assert EscapeByte(a[0]) + (EscapeXml(a[1..]) + EscapeXml(b)) == EscapeXml(a) + EscapeXml(b);
    }
  }

  /** Bytes above 7F pass both bytewise filters. */
  lemma {:induction false} HighBytesPass(s: seq<byte>)
    requires forall i | 0 <= i < |s| :: s[i] >= 0x80
    ensures StripControls(s) == s && EscapeXml(s) == s
  {
    if s != [] {
      HighBytesPass(s[1..]);
    }
  }

  /** A token is one clean-up of the sanitizer's token, unless the byte is NUL. */
  lemma TokensAgree(s: seq<byte>)
    requires s != []
    ensures PcdataToken(s).len == NextToken(s).len
    ensures s[0] != NUL ==> PcdataToken(s).emit == EscapeXml(StripControls(NextToken(s).emit))
    ensures s[0] == NUL ==> PcdataToken(s).emit == [] && NextToken(s) == Token([QUESTION], 1)
  {
    TokenShape(s);
    var e := NextToken(s).emit;
    if |e| == 1 {
      assert StripControls(e) == (if IsControl(e[0]) then [] else [e[0]]) + StripControls([]);
      assert EscapeXml([e[0]]) == EscapeByte(e[0]) + EscapeXml([]);
    } else {
      forall i | 0 <= i < |e| ensures e[i] >= 0x80 {
        assert i > 0 ==> IsCont(e[i]);
      }
      HighBytesPass(e);
    }
  }

  function CountNul(s: seq<byte>): nat {
    if s == [] then 0 else (if s[0] == NUL then 1 else 0) + CountNul(s[1..])
  }

  lemma {:induction false} CountNulZero(s: seq<byte>)
    ensures CountNul(s) == 0 <==> NUL !in s
  {
    if s != [] {
      CountNulZero(s[1..]);
      assert s == [s[0]] + s[1..];
    }
  }

  lemma {:induction false} CountNulSkip(s: seq<byte>, k: nat)
    requires k <= |s| && forall i | 0 <= i < k :: s[i] != NUL
    ensures CountNul(s) == CountNul(s[k..])
  {
    if k == 0 {
      assert s[0..] == s;
    } else {
      CountNulSkip(s[1..], k - 1);
      assert s[1..][k - 1..] == s[k..];
    }
  }

  lemma CountNulFirst(s: seq<byte>, k: nat)
    requires 1 <= k <= |s| && (s[0] == NUL ==> k == 1) && forall i | 1 <= i < k :: IsCont(s[i])
    ensures CountNul(s) == (if s[0] == NUL then 1 else 0) + CountNul(s[k..])
  {
    if s[0] != NUL {
      CountNulSkip(s, k);
    }
  }

  lemma NulToken(s: seq<byte>)
    requires s != [] && s[0] == NUL
    ensures NextToken(s) == Token([QUESTION], 1)
  {
  }

  /** The bytes of a token are free of NUL, except for the token NUL itself. */
  lemma TokenSkipsNoNul(s: seq<byte>)
    requires s != []
    ensures CountNul(s) == (if s[0] == NUL then 1 else 0) + CountNul(s[NextToken(s).len..])
  {
    var k := NextToken(s).len;
    TokenTail(s);
    if s[0] == NUL {
      NulToken(s);
    }
    CountNulFirst(s, k);
  }

  /** Sanitizing, stripping and escaping in turn keeps one '?' more for every NUL of the input. */
  lemma {:induction false} FactoredLength(s: seq<byte>)
    ensures |EscapeXml(StripControls(Sanitize(s)))| == |Pcdata(s)| + CountNul(s)
    ensures NUL !in s ==> Pcdata(s) == EscapeXml(StripControls(Sanitize(s)))
  {
    if s != [] {
      var t := NextToken(s);
      var rest := s[t.len..];
      FactoredLength(rest);
      TokensAgree(s);
      TokenSkipsNoNul(s);
      StripControlsConcat(t.emit, Sanitize(rest));
      EscapeXmlConcat(StripControls(t.emit), StripControls(Sanitize(rest)));
      if s[0] == NUL {
        assert EscapeXml(StripControls([QUESTION])) == [QUESTION];
      }
      assert NUL !in s ==> NUL !in rest;
    }
  }

  /** `pcdata` tokenises exactly as the sanitizer does: it is the sanitizer followed by a bytewise
      filter, and it is so for exactly the inputs without NUL. */
  lemma PcdataFactors(s: seq<byte>)
    ensures Pcdata(s) == EscapeXml(StripControls(Sanitize(s))) <==> NUL !in s
  {
    FactoredLength(s);
    CountNulZero(s);
  }

  /** Stripping before sanitizing is a different function: it joins a sequence a control byte split. */
  lemma StripFirstDiffers()
    ensures var s: seq<byte> := [0xC3, 0x01, 0xA9];
            && Sanitize(EscapeXml(StripControls(s))) == [0xC3, 0xA9]
            && Pcdata(s) == [QUESTION, QUESTION]
  {
    var s: seq<byte> := [0xC3, 0x01, 0xA9];
    assert s[1..] == [0x01, 0xA9] && s[2..] == [0xA9] && s[3..] == [];
    assert [0x01, 0xA9][1..] == [0xA9 as byte];
    var last: seq<byte> := [0xA9];
    assert last[1..] == [];
    assert StripControls([0xA9]) == [0xA9] && StripControls([0x01, 0xA9]) == [0xA9];
    assert StripControls(s) == [0xC3, 0xA9];
    HighBytesPass([0xC3, 0xA9]);
    var w: seq<byte> := [0xC3, 0xA9];
    assert CountCont(w, 2, 1) == CountCont(w, 2, 2) == 2;
    assert w[..2] == w && w[2..] == [];
    assert NextToken(w) == Token(w, 2);
    assert Sanitize(w) == w + Sanitize([]);
    assert CountCont(s, 2, 1) == 1;
    assert NextToken(s) == Token([QUESTION], 1);
    assert Pcdata([0xA9]) == [QUESTION] + Pcdata([]);
    assert Pcdata([0x01, 0xA9]) == Pcdata([0xA9]);
  }

  // ----------------------------------------------------------------------------------------------
  // What the output may hold
  // ----------------------------------------------------------------------------------------------

  /** At position `i` there is a plain character or the start of one of the five references. */
  ghost predicate SafeAt(t: seq<byte>, i: nat)
    requires i < |t|
  {
    && t[i] != LT && t[i] != GT && t[i] != QUOTE && t[i] != APOS
    && (t[i] == AMP ==> exists c: byte :: IsSpecial(c) && i + 5 <= |t| && t[i..i + 5] == Ref(c))
  }

  ghost predicate XmlSafe(t: seq<byte>) {
    forall i | 0 <= i < |t| :: SafeAt(t, i)
  }

  predicate NoControls(t: seq<byte>) {
    forall i | 0 <= i < |t| :: !IsControl(t[i])
  }

  lemma XmlSafeConcat(a: seq<byte>, b: seq<byte>)
    requires XmlSafe(a) && XmlSafe(b)
    ensures XmlSafe(a + b)
  {
    forall i | 0 <= i < |a + b| ensures SafeAt(a + b, i) {
      if i < |a| {
        assert SafeAt(a, i);
        if a[i] == AMP {
          var c: byte :| IsSpecial(c) && i + 5 <= |a| && a[i..i + 5] == Ref(c);
          assert (a + b)[i..i + 5] == a[i..i + 5];
        }
      } else {
        assert SafeAt(b, i - |a|);
        if b[i - |a|] == AMP {
          var c: byte :| IsSpecial(c) && i - |a| + 5 <= |b| && b[i - |a|..i - |a| + 5] == Ref(c);
          assert (a + b)[i..i + 5] == b[i - |a|..i - |a| + 5];
        }
      }
    }
  }

  lemma EscapeByteSafe(c: byte)
    ensures XmlSafe(EscapeByte(c))
    ensures !IsControl(c) ==> NoControls(EscapeByte(c))
  {
    if IsSpecial(c) {
      assert Ref(c)[0..0 + 5] == Ref(c);
    }
  }

  lemma {:induction false} EscapeXmlSafe(s: seq<byte>)
    ensures XmlSafe(EscapeXml(s))
    ensures NoControls(s) ==> NoControls(EscapeXml(s))
  {
    if s != [] {
      EscapeByteSafe(s[0]);
      EscapeXmlSafe(s[1..]);
      XmlSafeConcat(EscapeByte(s[0]), EscapeXml(s[1..]));
    }
  }

  lemma PcdataTokenSafe(s: seq<byte>)
    requires s != []
    ensures var e := PcdataToken(s).emit; XmlSafe(e) && NoControls(e) && WellFormed(e)
  {
    var e := PcdataToken(s).emit;
    TokenShape(s);
    if IsControl(s[0]) {
      WellFormedAscii([]);
    } else if IsSpecial(s[0]) {
      EscapeByteSafe(s[0]);
      WellFormedAscii(e);
    } else {
      forall i | 0 <= i < |e| ensures SafeAt(e, i) && !IsControl(e[i]) {
        assert |e| > 1 && i > 0 ==> IsCont(e[i]);
      }
      WellFormedToken(s);
    }
  }

  /** For every input the result is well-formed UTF-8 without control bytes, and the special bytes
      occur only inside the five references. */
  lemma {:induction false} PcdataSafe(s: seq<byte>)
    ensures XmlSafe(Pcdata(s)) && NoControls(Pcdata(s)) && WellFormed(Pcdata(s))
  {
    if s == [] {
      WellFormedAscii([]);
    } else {
      var t := PcdataToken(s);
      PcdataTokenSafe(s);
      PcdataSafe(s[t.len..]);
      XmlSafeConcat(t.emit, Pcdata(s[t.len..]));
      WellFormedConcat(t.emit, Pcdata(s[t.len..]));
    }
  }

  // ----------------------------------------------------------------------------------------------
  // Decoding the references
  // ----------------------------------------------------------------------------------------------

  /** Replaces every two-digit decimal reference by the byte it names. */
  function DecodeRefs(t: seq<byte>): seq<byte> {
    if t == [] then []
    else if |t| >= 5 && t[0] == AMP && t[1] == HASH && IsDigit(t[2]) && IsDigit(t[3]) && t[4] == SEMI then
      [(t[2] - 0x30) * 10 + (t[3] - 0x30)] + DecodeRefs(t[5..])
    else
      [t[0]] + DecodeRefs(t[1..])
  }

  lemma DecodeEscapedByte(c: byte, rest: seq<byte>)
    ensures DecodeRefs(EscapeByte(c) + rest) == [c] + DecodeRefs(rest)
  {
    var t := EscapeByte(c) + rest;
    if IsSpecial(c) {
      assert t[5..] == rest;
      assert t[0] == AMP && t[1] == HASH && t[2] == 0x30 + c / 10 && t[3] == 0x30 + c % 10 && t[4] == SEMI;
    } else {
      assert t[0] == c && t[1..] == rest;
    }
  }

  /** Escaping is undone by reading the references. */
  lemma {:induction false} DecodeEscaped(s: seq<byte>)
    ensures DecodeRefs(EscapeXml(s)) == s
  {
    if s != [] {
      DecodeEscaped(s[1..]);
      DecodeEscapedByte(s[0], EscapeXml(s[1..]));
    }
  }

  lemma {:induction false} StripControlsFixed(s: seq<byte>)
    ensures |StripControls(s)| <= |s|
    ensures StripControls(s) == s <==> NoControls(s)
    ensures |StripControls(s)| == |s| ==> StripControls(s) == s
  {
    if s != [] {
      StripControlsFixed(s[1..]);
      if NoControls(s) {
        assert NoControls(s[1..]);
      } else if !IsControl(s[0]) && NoControls(s[1..]) {
        forall i | 0 <= i < |s| ensures !IsControl(s[i]) {
          assert i > 0 ==> s[i] == s[1..][i - 1];
        }
      }
    }
  }

  lemma {:induction false} NoControlsConcat(a: seq<byte>, b: seq<byte>)
    requires NoControls(a) && NoControls(b)
    ensures NoControls(a + b)
  {
  }

  /** Decoded output never has a control byte, NUL in the input or not. */
  lemma {:induction false} DecodedPcdataClean(s: seq<byte>)
    ensures NoControls(DecodeRefs(Pcdata(s)))
  {
    if s != [] {
      var t := PcdataToken(s);
      var rest := Pcdata(s[t.len..]);
      DecodedPcdataClean(s[t.len..]);
      if IsControl(s[0]) {
        assert t.emit + rest == rest;
      } else if IsSpecial(s[0]) || s[0] <= 0x7F {
        DecodeEscapedByte(s[0], rest);
        NoControlsConcat([s[0]], DecodeRefs(rest));
      } else {
        TokenShape(s);
        PcdataTokenSafe(s);
        forall i | 0 <= i < |t.emit| ensures t.emit[i] != AMP {
          assert |t.emit| > 1 && i > 0 ==> IsCont(t.emit[i]);
        }
        DecodePlain(t.emit, rest);
        NoControlsConcat(t.emit, DecodeRefs(rest));
      }
    }
  }

  lemma {:induction false} DecodePlain(a: seq<byte>, rest: seq<byte>)
    requires forall i | 0 <= i < |a| :: a[i] != AMP
    ensures DecodeRefs(a + rest) == a + DecodeRefs(rest)
  {
    if a == [] {
      assert a + rest == rest;
    } else {
      assert (a + rest)[1..] == a[1..] + rest;
      DecodePlain(a[1..], rest);
    }
  }

  /** Reading the references of the output gives back the input for exactly the clean inputs: the
      well-formed ones without control bytes. */
  lemma PcdataRoundTrip(s: seq<byte>)
    ensures DecodeRefs(Pcdata(s)) == s <==> WellFormed(s) && NoControls(s)
  {
    DecodedPcdataClean(s);
    if NoControls(s) {
      assert NUL !in s;
      FactoredLength(s);
      DecodeEscaped(StripControls(Sanitize(s)));
      SanitizeFixedPoint(s);
      SanitizeNotLonger(s);
      StripControlsFixed(s);
      StripControlsFixed(Sanitize(s));
    }
  }

  // ----------------------------------------------------------------------------------------------
  // What is changed at all
  // ----------------------------------------------------------------------------------------------

  /** The five references, as they are written. */
  lemma References()
    ensures EscapeByte(0x22) == Ascii("&#34;") && EscapeByte(0x26) == Ascii("&#38;")
    ensures EscapeByte(0x27) == Ascii("&#39;") && EscapeByte(0x3C) == Ascii("&#60;")
    ensures EscapeByte(0x3E) == Ascii("&#62;")
  {
  }

  /** A quote, an apostrophe, an ampersand or an angle bracket. */
  predicate NeedsReference(c: byte) {
    c == 0x22 || c == 0x26 || c == 0x27 || c == 0x3C || c == 0x3E
  }

  /** A control character other than tab, newline and carriage return. */
  predicate NeedsRemoval(c: byte) {
    (c < 0x20 && c != 0x09 && c != 0x0A && c != 0x0D) || c == 0x7F
  }

  lemma {:induction false} EscapeXmlSame(s: seq<byte>)
    ensures |EscapeXml(s)| >= |s|
    ensures EscapeXml(s) == s <==> forall i | 0 <= i < |s| :: !NeedsReference(s[i])
  {
    if s != [] {
      var rest := s[1..];
      EscapeXmlSame(rest);
      assert forall i | 1 <= i < |s| :: s[i] == rest[i - 1];
      if NeedsReference(s[0]) {
        assert |EscapeXml(s)| > |s|;
      } else {
        assert EscapeXml(s) == [s[0]] + EscapeXml(rest) && s == [s[0]] + rest;
        assert EscapeXml(s)[1..] == EscapeXml(rest);
        assert forall i | 0 <= i < |rest| :: rest[i] == s[i + 1];
      }
    }
  }

  /** Text passes `pcdata` unchanged exactly if it is well-formed and holds none of these bytes; tabs, newlines
      and carriage returns pass. */
  lemma PcdataUnchangedIff(s: seq<byte>)
    ensures Pcdata(s) == s
            <==> WellFormed(s) && forall i | 0 <= i < |s| :: !NeedsReference(s[i]) && !NeedsRemoval(s[i])
  {
    PcdataSafe(s);
    EscapeXmlSame(s);
    assert forall i | 0 <= i < |s| :: IsControl(s[i]) <==> NeedsRemoval(s[i]);
    if WellFormed(s) && NoControls(s) {
      SanitizeFixedPoint(s);
      StripControlsFixed(s);
      PcdataFactors(s);
    }
  }
}
