/** The tag stripper (template_utils.c, `striptags`): cut the tags, collapse whitespace, escape the rest. */
module StripTags {
  import opened Bytes
  import opened Buffer
  import opened Words
  import opened XmlText

  /** A `<` that the loop takes for the start of a tag. */
  predicate OpensTag(s: seq<byte>) {
    |s| > 2 && s[0] == LT && (s[1] == SLASH || IsAlpha(s[1]))
  }

  /** Position of the first `>`, or the length. */
  function TagEnd(s: seq<byte>): (n: nat)
    ensures n <= |s|
    ensures forall i | 0 <= i < n :: s[i] != GT
    ensures n < |s| ==> s[n] == GT
  {
    if s == [] || s[0] == GT then 0 else 1 + TagEnd(s[1..])
  }

  /** Every closed tag becomes one space; the `<` of a tag that is never closed is dropped. */
  function CutTags(s: seq<byte>): seq<byte> {
    if s == [] then []
    else if OpensTag(s) then
      if TagEnd(s) < |s| then [SPACE] + CutTags(s[TagEnd(s) + 1..]) else CutTags(s[1..])
    else [s[0]] + CutTags(s[1..])
  }

  /** The reference: three passes, one after the other. */
  function Stripped(s: seq<byte>): seq<byte> {
    EscapeXml(Collapse(CutTags(s), SPACE))
  }

  /** What one turn of the loop emits, how far it moves and the `prev` it leaves. */
  datatype Turn = Turn(emit: seq<byte>, len: nat, last: byte)

  function NextTurn(rest: seq<byte>, prev: byte): (t: Turn)
    requires rest != []
    ensures 1 <= t.len <= |rest|
  {
    if OpensTag(rest) then
      var n := TagEnd(rest);
      if n < |rest| then Turn(if IsSpace(prev) then [] else [SPACE], n + 1, SPACE)
      else Turn([], 1, prev)
    else
      Turn(if IsSpace(rest[0]) && IsSpace(prev) then [] else EscapeByte(rest[0]), 1, rest[0])
  }

  /** All turns of the loop, one after the other. */
  function Turns(rest: seq<byte>, prev: byte): seq<byte> {
    if rest == [] then [] else
      var t := NextTurn(rest, prev);
      t.emit + Turns(rest[t.len..], t.last)
  }

  /** One byte through the last two passes. */
  lemma PassStep(c: byte, rest: seq<byte>, prev: byte)
    ensures EscapeXml(Collapse([c] + rest, prev))
            == (if IsSpace(c) && IsSpace(prev) then [] else EscapeByte(c)) + EscapeXml(Collapse(rest, c))
  {
    assert ([c] + rest)[1..] == rest;
    var t := Collapse(rest, c);
    assert ([c] + t)[1..] == t;
  }

  /** One pass over the input does the work of the three. */
  lemma {:induction false} TurnsAreThreePasses(rest: seq<byte>, prev: byte)
    ensures Turns(rest, prev) == EscapeXml(Collapse(CutTags(rest), prev))
  {
    if rest != [] {
      var t := NextTurn(rest, prev);
      TurnsAreThreePasses(rest[t.len..], t.last);
      if OpensTag(rest) && TagEnd(rest) < |rest| {
        PassStep(SPACE, CutTags(rest[t.len..]), prev);
      } else if !OpensTag(rest) {
        PassStep(rest[0], CutTags(rest[1..]), prev);
      }
    }
  }

  /** `done` is the output of the turns before `ptr`. */
  ghost predicate TurnedUpTo(s: seq<byte>, ptr: nat, prev: byte, done: seq<byte>) {
    ptr <= |s| && done + Turns(s[ptr..], prev) == Turns(s, SPACE)
  }

  /** `prev` is a space exactly when nothing or a space was emitted last. */
  ghost predicate EndsLike(out: seq<byte>, prev: byte) {
    IsSpace(prev) <==> out == [] || IsSpace(out[|out| - 1])
  }

  lemma TurnEndsLike(rest: seq<byte>, prev: byte, done: seq<byte>)
    requires rest != [] && EndsLike(done, prev)
    ensures var t := NextTurn(rest, prev); EndsLike(done + t.emit, t.last)
  {
    var t := NextTurn(rest, prev);
    if t.emit == [] {
      assert done + t.emit == done;
    } else {
      assert (done + t.emit)[|done + t.emit| - 1] == t.emit[|t.emit| - 1];
    }
  }

  lemma TurnedEnds(s: seq<byte>, prev: byte, done: seq<byte>)
    ensures TurnedUpTo(s, 0, SPACE, [])
    ensures TurnedUpTo(s, |s|, prev, done) ==> done == Stripped(s)
  {
    assert s[0..] == s && s[|s|..] == [];
    assert done + [] == done;
    TurnsAreThreePasses(s, SPACE);
  }

  lemma TurnsFrom(s: seq<byte>, ptr: nat, prev: byte)
    requires ptr < |s|
    ensures var t := NextTurn(s[ptr..], prev);
            ptr + t.len <= |s| && Turns(s[ptr..], prev) == t.emit + Turns(s[ptr + t.len..], t.last)
  {
    var t := NextTurn(s[ptr..], prev);
    assert s[ptr..][t.len..] == s[ptr + t.len..];
  }

  lemma TurnedMove(s: seq<byte>, ptr: nat, prev: byte, done: seq<byte>, next: nat, last: byte,
                   emit: seq<byte>, now: seq<byte>)
    requires ptr <= next <= |s| && TurnedUpTo(s, ptr, prev, done)
    requires Turns(s[ptr..], prev) == emit + Turns(s[next..], last) && now == done + emit
    ensures TurnedUpTo(s, next, last, now)
  {
    MoveOver(Turns(s, SPACE), done, emit, Turns(s[ptr..], prev), Turns(s[next..], last), now);
  }

  lemma TurnedStep(s: seq<byte>, ptr: nat, prev: byte, done: seq<byte>, next: nat, last: byte, now: seq<byte>)
    requires ptr < |s| && TurnedUpTo(s, ptr, prev, done)
    requires var t := NextTurn(s[ptr..], prev); next == ptr + t.len && last == t.last && now == done + t.emit
    ensures TurnedUpTo(s, next, last, now)
  {
    TurnsFrom(s, ptr, prev);
    TurnedMove(s, ptr, prev, done, next, last, NextTurn(s[ptr..], prev).emit, now);
  }

  /** What the loop keeps. */
  ghost predicate Stripping(s: seq<byte>, ptr: nat, prev: byte, done: seq<byte>) {
    TurnedUpTo(s, ptr, prev, done) && EndsLike(done, prev)
  }

  lemma StrippingStep(s: seq<byte>, ptr: nat, prev: byte, done: seq<byte>, next: nat, last: byte, now: seq<byte>)
    requires ptr < |s| && Stripping(s, ptr, prev, done)
    requires var t := NextTurn(s[ptr..], prev); next == ptr + t.len && last == t.last && now == done + t.emit
    ensures Stripping(s, next, last, now)
  {
    TurnEndsLike(s[ptr..], prev, done);
    TurnedStep(s, ptr, prev, done, next, last, now);
  }

  lemma TagEndIs(s: seq<byte>, n: nat)
    requires n <= |s| && (n < |s| ==> s[n] == GT)
    requires forall i | 0 <= i < n :: s[i] != GT
    ensures TagEnd(s) == n
  {
  }

  /** The escape written by the `switch` of the source. */
  method PutEscaped(c: byte, buf: TemplateBuffer)
    requires buf.Valid()
    modifies buf, buf.data
    ensures buf.Valid() && (buf.data == old(buf.data) || fresh(buf.data))
    ensures buf.Contents() == old(buf.Contents()) + EscapeByte(c)
  {
    if IsSpecial(c) {
      buf.Append(Ref(c));
    } else {
      buf.PutChar(c);
    }
  }

  /** A space goes out unless one went out before. */
  method PutSpace(c: byte, prev: byte, buf: TemplateBuffer)
    requires buf.Valid()
    modifies buf, buf.data
    ensures buf.Valid() && (buf.data == old(buf.data) || fresh(buf.data))
    ensures buf.Contents() == old(buf.Contents()) + if IsSpace(prev) then [] else [c]
  {
    if !IsSpace(prev) {
      buf.PutChar(c);
    }
  }

  /** The nested scan for the end of the tag at `ptr`. */
  method ScanTag(s: seq<byte>, ptr: nat) returns (tag: nat)
    requires ptr <= |s|
    ensures tag == ptr + TagEnd(s[ptr..])
  {
    tag := ptr;
    while tag < |s| && s[tag] != GT
      invariant ptr <= tag <= |s|
      invariant forall i | ptr <= i < tag :: s[i] != GT
    {
      tag := tag + 1;
    }
    TagEndIs(s[ptr..], tag - ptr);
  }

  /** The branches of the loop. */
  method StripBranch(s: seq<byte>, ptr: nat, prev: byte, buf: TemplateBuffer) returns (next: nat, last: byte)
    requires ptr < |s| && buf.Valid()
    modifies buf, buf.data
    ensures buf.Valid() && (buf.data == old(buf.data) || fresh(buf.data))
    ensures var t := NextTurn(s[ptr..], prev);
            next == ptr + t.len && last == t.last && buf.Contents() == old(buf.Contents()) + t.emit
  {
    next, last := ptr, prev;
    if s[ptr] == LT && ptr + 2 < |s| && (s[ptr + 1] == SLASH || IsAlpha(s[ptr + 1])) {
      var tag := ScanTag(s, ptr);
      if tag < |s| {
        PutSpace(SPACE, prev, buf);
        next := tag;
        last := SPACE;
      }
    } else {
      if IsSpace(s[ptr]) {
        PutSpace(s[ptr], prev, buf);
      } else {
        PutEscaped(s[ptr], buf);
      }
      last := s[ptr];
    }
    next := next + 1;
  }

  /** The body of the loop. */
  method StripTurn(s: seq<byte>, ptr: nat, prev: byte, buf: TemplateBuffer) returns (next: nat, last: byte)
    requires ptr < |s| && buf.Valid()
    requires Stripping(s, ptr, prev, buf.Contents())
    modifies buf, buf.data
    ensures buf.Valid() && (buf.data == old(buf.data) || fresh(buf.data))
    ensures ptr < next <= |s| && Stripping(s, next, last, buf.Contents())
  {
    ghost var done := buf.Contents();
    next, last := StripBranch(s, ptr, prev, buf);
    StrippingStep(s, ptr, prev, done, next, last, buf.Contents());
  }

  /** `striptags`. The memory holds the result followed by a NUL; a NUL byte of the input is copied, so a
      caller that reads a C string sees the part before it. */
  method StripTagsString(s: seq<byte>) returns (text: array<byte>)
    ensures HoldsString(text[..], Stripped(s))
  {
    var buf := new TemplateBuffer(|s|);
    var ptr: nat := 0;
    var prev := SPACE;
    TurnedEnds(s, prev, []);
    while ptr < |s|
      invariant ptr <= |s|
      invariant buf.Valid() && fresh(buf) && fresh(buf.data)
      invariant Stripping(s, ptr, prev, buf.Contents())
    {
      ptr, prev := StripTurn(s, ptr, prev, buf);
    }
    TurnedEnds(s, prev, buf.Contents());
    text := buf.Destroy();
  }

  // ----------------------------------------------------------------------------------------------
  // What the result looks like
  // ----------------------------------------------------------------------------------------------

  lemma {:induction false} EscapeKeepsTidy(s: seq<byte>, prev: byte)
    requires Tidy(s, prev)
    ensures Tidy(EscapeXml(s), prev)
  {
    if s != [] {
      var e, rest, out := EscapeByte(s[0]), EscapeXml(s[1..]), EscapeXml(s);
      forall i | 0 <= i < |s[1..]| ensures !(IsSpace(Before(s[1..], s[0], i)) && IsSpace(s[1..][i])) {
        assert !(IsSpace(Before(s, prev, i + 1)) && IsSpace(s[i + 1]));
      }
      EscapeKeepsTidy(s[1..], s[0]);
      assert !(IsSpace(Before(s, prev, 0)) && IsSpace(s[0]));
      forall i | 0 <= i < |out| ensures !(IsSpace(Before(out, prev, i)) && IsSpace(out[i])) {
        if i >= |e| {
          assert out[i] == rest[i - |e|];
          assert !(IsSpace(Before(rest, s[0], i - |e|)) && IsSpace(rest[i - |e|]));
        }
      }
    }
  }

  /** For every input, closed tags or not: no leading whitespace, no two whitespace bytes in a row, and
      special bytes only inside references. */
  lemma StrippedShape(s: seq<byte>)
    ensures Tidy(Stripped(s), SPACE) && XmlSafe(Stripped(s))
  {
    CollapseTidy(CutTags(s), SPACE);
    EscapeKeepsTidy(Collapse(CutTags(s), SPACE), SPACE);
    EscapeXmlSafe(Collapse(CutTags(s), SPACE));
  }

  /** Read back, the result has exactly the words that are outside the tags. */
  lemma StrippedKeepsWords(s: seq<byte>)
    ensures Words.Words(DecodeRefs(Stripped(s))) == Words.Words(CutTags(s))
  {
    DecodeEscaped(Collapse(CutTags(s), SPACE));
    CollapseKeepsWords(CutTags(s), SPACE);
  }

  /** Text without `<` is cut nowhere, and a closed tag after it is cut as a whole. */
  lemma {:induction false} CutTagsAt(text: seq<byte>, body: seq<byte>, rest: seq<byte>)
    requires LT !in text && GT !in body
    requires body != [] && (body[0] == SLASH || IsAlpha(body[0]))
    ensures CutTags(text + ([LT] + body + [GT]) + rest) == text + [SPACE] + CutTags(rest)
  {
    var tag := [LT] + body + [GT];
    var s := text + tag + rest;
    if text == [] {
      assert s == tag + rest;
      TagCut(body, rest);
    } else {
      assert text[0] in text;
      assert s[1..] == text[1..] + tag + rest;
      CutTagsAt(text[1..], body, rest);
    }
  }

  lemma TagCut(body: seq<byte>, rest: seq<byte>)
    requires GT !in body
    requires body != [] && (body[0] == SLASH || IsAlpha(body[0]))
    ensures CutTags([LT] + body + [GT] + rest) == [SPACE] + CutTags(rest)
  {
    var s := [LT] + body + [GT] + rest;
    forall i | 0 <= i < |body| + 1 ensures s[i] != GT {
      assert i > 0 ==> s[i] == body[i - 1] && body[i - 1] in body;
    }
    TagEndIs(s, |body| + 1);
    assert s[1] == body[0];
    assert s[|body| + 2..] == rest;
  }

  /** A tag that is never closed loses its `<` only. */
  lemma UnclosedTag(body: seq<byte>)
    requires GT !in body && LT !in body
    requires |body| >= 2 && (body[0] == SLASH || IsAlpha(body[0]))
    ensures CutTags([LT] + body) == body
  {
    var s := [LT] + body;
    assert s[1..] == body;
    forall i | 0 <= i < |s| ensures s[i] != GT {
      assert i > 0 ==> s[i] == body[i - 1] && body[i - 1] in body;
    }
    TagEndIs(s, |s|);
    NothingToCut(body);
  }

  lemma {:induction false} NothingToCut(s: seq<byte>)
    requires LT !in s
    ensures CutTags(s) == s
  {
    if s != [] {
      assert s[0] in s;
      NothingToCut(s[1..]);
    }
  }

  // ----------------------------------------------------------------------------------------------
  // Brackets that open no tag
  // ----------------------------------------------------------------------------------------------

  predicate SlashOrLetter(c: byte) {
    c == 0x2F || 0x41 <= c <= 0x5A || 0x61 <= c <= 0x7A
  }

  /** A `<` with something else behind it is kept. */
  lemma BracketKept(c: byte, rest: seq<byte>)
    requires !SlashOrLetter(c)
    ensures CutTags([LT, c] + rest) == [LT] + CutTags([c] + rest)
  {
    assert ([LT, c] + rest)[1..] == [c] + rest;
  }

  /** So is one with fewer than two bytes behind it. */
  lemma LateBracketKept(end: seq<byte>)
    requires |end| < 2
    ensures CutTags([LT] + end) == [LT] + CutTags(end)
  {
    assert ([LT] + end)[1..] == end;
  }

  /** A `<` that opens a tag stands here. */
  predicate TagAt(s: seq<byte>, i: nat)
    requires i < |s|
  {
    s[i] == 0x3C && i + 2 < |s| && SlashOrLetter(s[i + 1])
  }

  lemma {:induction false} CutTagsNotLonger(s: seq<byte>)
    ensures |CutTags(s)| <= |s|
    decreases |s|
  {
    if s != [] {
      CutTagsNotLonger(s[1..]);
      CutTagsNotLonger(s[if TagEnd(s) < |s| then TagEnd(s) + 1 else 1..]);
    }
  }

  /** Cutting changes a text exactly if a tag opens in it. */
  lemma {:induction false} NothingCutIff(s: seq<byte>)
    ensures CutTags(s) == s <==> forall i | 0 <= i < |s| :: !TagAt(s, i)
    decreases |s|
  {
    if s != [] {
      var rest := s[1..];
      NothingCutIff(rest);
      forall i | 0 <= i < |rest| ensures TagAt(rest, i) == TagAt(s, i + 1) {
      }
      if TagAt(s, 0) {
        CutTagsNotLonger(rest);
        CutTagsNotLonger(s[if TagEnd(s) < |s| then TagEnd(s) + 1 else 1..]);
      } else {
        assert CutTags(s) == [s[0]] + CutTags(rest) && s == [s[0]] + rest;
        assert CutTags(s)[1..] == CutTags(rest);
        assert forall i | 1 <= i < |s| :: TagAt(s, i) == TagAt(rest, i - 1);
      }
    }
  }

  /** Text in which no tag opens loses whitespace only. */
  lemma PlainTextKept(s: seq<byte>)
    requires forall i | 0 <= i < |s| :: !TagAt(s, i)
    ensures DecodeRefs(Stripped(s)) == Collapse(s, SPACE)
  {
    NothingCutIff(s);
    DecodeEscaped(Collapse(CutTags(s), SPACE));
  }
}
