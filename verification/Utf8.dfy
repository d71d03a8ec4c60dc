/** The UTF-8 sanitizer (template_utils.c, `_validate_utf8` and `utf8`) and its reference definition. */
module Utf8 {
  import opened Bytes
  import opened Buffer

  // ----------------------------------------------------------------------------------------------
  // Reference: the code points of section 3 of RFC 3629 and their encodings.
  // ----------------------------------------------------------------------------------------------

  /** The code points the sanitizer lets through: no NUL, no surrogate, neither U+FFFE nor U+FFFF.
      Lead bytes F5..F7 are accepted as well, so the range ends at 1FFFFF and not at 10FFFF. */
  predicate Scalar(cp: int) {
    1 <= cp <= 0x1FFFFF && !(0xD800 <= cp <= 0xDFFF) && cp != 0xFFFE && cp != 0xFFFF
  }

  function Encode(cp: int): (s: seq<byte>)
    requires Scalar(cp)
    ensures 1 <= |s| <= 4
  {
    if cp <= 0x7F then
      [cp as byte]
    else if cp <= 0x7FF then
      [(0xC0 + cp / 0x40) as byte, (0x80 + cp % 0x40) as byte]
    else if cp <= 0xFFFF then
      [(0xE0 + cp / 0x1000) as byte, (0x80 + cp / 0x40 % 0x40) as byte, (0x80 + cp % 0x40) as byte]
    else
      [(0xF0 + cp / 0x40000) as byte, (0x80 + cp / 0x1000 % 0x40) as byte,
       (0x80 + cp / 0x40 % 0x40) as byte, (0x80 + cp % 0x40) as byte]
  }

  predicate AllScalar(cps: seq<int>) {
    forall i | 0 <= i < |cps| :: Scalar(cps[i])
  }

  function EncodeAll(cps: seq<int>): seq<byte>
    requires AllScalar(cps)
  {
    if cps == [] then [] else Encode(cps[0]) + EncodeAll(cps[1..])
  }

  ghost predicate WellFormed(s: seq<byte>) {
    exists cps: seq<int> :: AllScalar(cps) && s == EncodeAll(cps)
  }

  // ----------------------------------------------------------------------------------------------
  // The tests of the C code. A mask test or a shift compares the leading bits of a byte, which is a range.
  // ----------------------------------------------------------------------------------------------

  function NumChars(c: byte): (n: nat)
    ensures 1 <= n <= 6
  {
    if 0xC0 <= c <= 0xDF then 2        // (c & 0xE0) == 0xC0
    else if 0xE0 <= c <= 0xEF then 3   // (c & 0xF0) == 0xE0
    else if 0xF0 <= c <= 0xF7 then 4   // (c & 0xF8) == 0xF0
    else if 0xF8 <= c <= 0xFB then 5   // (c & 0xFC) == 0xF8
    else if 0xFC <= c <= 0xFD then 6   // (c & 0xFE) == 0xFC
    else 1
  }

  /** The ranges are those of the masks, on the bits of the byte. */
  lemma LeadBytes(c: bv8)
    ensures NumChars(c as byte)
            == if c & 0xE0 == 0xC0 then 2
               else if c & 0xF0 == 0xE0 then 3
               else if c & 0xF8 == 0xF0 then 4
               else if c & 0xFC == 0xF8 then 5
               else if c & 0xFE == 0xFC then 6
               else 1
    ensures IsCont(c as byte) <==> c & 0xC0 == 0x80
  {
  }

  predicate IsCont(c: byte) {
    0x80 <= c <= 0xBF
  }

  /** The cases for five and six bytes are never asked for and are left out. */
  predicate IsShortest(s: seq<byte>, n: nat)
    requires n <= |s|
  {
    match n
    case 2 => !(0xC0 <= s[0] <= 0xC1 && IsCont(s[1]))
    case 3 => !(s[0] == 0xE0 && 0x80 <= s[1] <= 0x9F && IsCont(s[2]))
    case 4 => !(s[0] == 0xF0 && 0x80 <= s[1] <= 0x8F && IsCont(s[2]) && IsCont(s[3]))
    case _ => true
  }

  predicate IsSurrogate(s: seq<byte>, n: nat)
    requires n <= |s|
  {
    n == 3 && s[0] == 0xED && 0xA0 <= s[1] <= 0xBF
  }

  predicate IsIllegal(s: seq<byte>, n: nat)
    requires n <= |s|
  {
    n == 3 && s[0] == 0xEF && s[1] == 0xBF && 0xBE <= s[2] <= 0xBF
  }

  /** The counting loop of `_validate_utf8`: it may stop one past a complete sequence. */
  function CountCont(s: seq<byte>, n: nat, v: nat): (r: nat)
    requires v <= |s|
    ensures v <= r <= |s|
    ensures forall i | v <= i < r :: IsCont(s[i])
    decreases |s| - v
  {
    if v <= n && v < |s| && IsCont(s[v]) then CountCont(s, n, v + 1) else v
  }

  /** What one call of `_validate_utf8` appends, and how far it moves. */
  datatype Token = Token(emit: seq<byte>, len: nat)

  function NextToken(s: seq<byte>): (t: Token)
    requires s != []
    ensures 1 <= t.len <= |s|
  {
    if 0x01 <= s[0] <= 0x7F then
      Token([s[0]], 1)
    else
      var n := NumChars(s[0]);
      if n > 1 then
        var v := CountCont(s, n, 1);
        if n < 5 && v == n && IsShortest(s, n) && !IsSurrogate(s, n) && !IsIllegal(s, n) then
          Token(s[..n], v)
        else
          Token([QUESTION], v)
      else
        Token([QUESTION], 1)
  }

  /** The text `utf8` returns. */
  function Sanitize(s: seq<byte>): seq<byte> {
    if s == [] then [] else
      var t := NextToken(s);
      t.emit + Sanitize(s[t.len..])
  }

  // ----------------------------------------------------------------------------------------------
  // The loops
  // ----------------------------------------------------------------------------------------------

  /** `_validate_utf8`: reads inside `s[ptr..ptr+l]` only, appends one token and advances past it. */
  method Validate(s: seq<byte>, ptr: nat, l: nat, buf: TemplateBuffer) returns (next: nat, o: nat)
    requires 0 < l && ptr + l <= |s|
    requires buf.Valid()
    modifies buf, buf.data
    ensures buf.Valid() && (buf.data == old(buf.data) || fresh(buf.data))
    ensures var t := NextToken(s[ptr..ptr + l]);
            o == t.len && next == ptr + o && buf.Contents() == old(buf.Contents()) + t.emit
  {
    ghost var here := s[ptr..ptr + l];
    next, o := ptr, 0;
    if 0x01 <= s[ptr] <= 0x7F {
      buf.PutChar(s[ptr]);
      next := next + 1;
      o := 1;
    } else {
      var n := NumChars(s[ptr]);
      if n > 1 {
        var v: nat := 1;
        while v <= n && o + v < l && IsCont(s[ptr + v])
          invariant 1 <= v <= l
          invariant CountCont(here, n, 1) == CountCont(here, n, v)
        {
          v := v + 1;
        }
        match n {
          case 6 => buf.PutChar(QUESTION);
          case 5 => buf.PutChar(QUESTION);
          case _ =>
            if v == n && IsShortest(s[ptr..], n) && !IsSurrogate(s[ptr..], n) && !IsIllegal(s[ptr..], n) {
              buf.Append(s[ptr..ptr + n]);
              assert s[ptr..ptr + n] == here[..n];
            } else {
              buf.PutChar(QUESTION);
            }
        }
        o := v;
        next := next + v;
      } else {
        buf.PutChar(QUESTION);
        o := 1;
        next := next + 1;
      }
    }
  }

  /** `done` is the output for the first `o` bytes. */
  ghost predicate Sanitized(s: seq<byte>, o: nat, done: seq<byte>) {
    o <= |s| && done + Sanitize(s[o..]) == Sanitize(s)
  }

  lemma SanitizeFrom(s: seq<byte>, o: nat)
    requires o < |s|
    ensures var t := NextToken(s[o..]); o + t.len <= |s| && Sanitize(s[o..]) == t.emit + Sanitize(s[o + t.len..])
  {
    var t := NextToken(s[o..]);
    assert s[o..][t.len..] == s[o + t.len..];
  }

  lemma SanitizedMove(s: seq<byte>, o: nat, done: seq<byte>, next: nat, emit: seq<byte>, now: seq<byte>)
    requires o <= next <= |s| && Sanitized(s, o, done) && Sanitize(s[o..]) == emit + Sanitize(s[next..])
    requires now == done + emit
    ensures Sanitized(s, next, now)
  {
    MoveOver(Sanitize(s), done, emit, Sanitize(s[o..]), Sanitize(s[next..]), now);
  }

  lemma SanitizedStep(s: seq<byte>, o: nat, done: seq<byte>, next: nat, now: seq<byte>)
    requires o < |s| && Sanitized(s, o, done)
    requires var t := NextToken(s[o..]); next == o + t.len && now == done + t.emit
    ensures Sanitized(s, next, now)
  {
    SanitizeFrom(s, o);
    SanitizedMove(s, o, done, next, NextToken(s[o..]).emit, now);
  }

  lemma AsciiToken(s: seq<byte>, o: nat)
    requires o < |s| && 0x01 <= s[o] <= 0x7F
    ensures NextToken(s[o..]) == Token([s[o]], 1)
  {
  }

  lemma SanitizedEnds(s: seq<byte>, done: seq<byte>)
    ensures Sanitized(s, 0, [])
    ensures Sanitized(s, |s|, done) ==> done == Sanitize(s)
  {
    assert s[0..] == s && s[|s|..] == [];
    assert done + [] == done;
  }

  /** The branches of the loop of `utf8`: `extra` is what the sanitizer adds to the loop counter. */
  method SanitizeBranch(s: seq<byte>, ptr: nat, buf: TemplateBuffer) returns (next: nat, extra: nat)
    requires ptr < |s| && buf.Valid()
    modifies buf, buf.data
    ensures buf.Valid() && (buf.data == old(buf.data) || fresh(buf.data))
    ensures var t := NextToken(s[ptr..]);
            next == ptr + t.len && extra == t.len - 1 && buf.Contents() == old(buf.Contents()) + t.emit
  {
    next, extra := ptr, 0;
    if 0x01 <= s[ptr] <= 0x7F {
      AsciiToken(s, ptr);
      buf.PutChar(s[ptr]);
      next := next + 1;
    } else {
      assert s[ptr..ptr + (|s| - ptr)] == s[ptr..];
      var v;
      next, v := Validate(s, ptr, |s| - ptr, buf);
      extra := v - 1;
    }
  }

  /** The body of the loop. */
  method SanitizeTurn(s: seq<byte>, ptr: nat, buf: TemplateBuffer) returns (next: nat, extra: nat)
    requires ptr < |s| && buf.Valid() && Sanitized(s, ptr, buf.Contents())
    modifies buf, buf.data
    ensures buf.Valid() && (buf.data == old(buf.data) || fresh(buf.data))
    ensures next == ptr + extra + 1 && Sanitized(s, next, buf.Contents())
  {
    ghost var done := buf.Contents();
    next, extra := SanitizeBranch(s, ptr, buf);
    SanitizedStep(s, ptr, done, next, buf.Contents());
  }

  /** `utf8`: the counter `o` and the pointer move together, whatever the tokens are. */
  method SanitizeString(s: seq<byte>) returns (text: array<byte>)
    ensures HoldsString(text[..], Sanitize(s))
  {
    var buf := new TemplateBuffer(|s|);
    var ptr: nat := 0;
    var o: nat := 0;
    SanitizedEnds(s, []);
    while o < |s|
      invariant ptr == o <= |s|
      invariant buf.Valid() && fresh(buf) && fresh(buf.data)
      invariant Sanitized(s, o, buf.Contents())
    {
      var extra;
      ptr, extra := SanitizeTurn(s, ptr, buf);
      o := o + extra + 1;
    }
    SanitizedEnds(s, buf.Contents());
    text := buf.Destroy();
  }

  // ----------------------------------------------------------------------------------------------
  // Soundness: the output is the encoding of scalars only.
  // ----------------------------------------------------------------------------------------------

  /** The code point spelled by a complete sequence of the given length. */
  function Compose(s: seq<byte>): int
    requires 1 <= |s| <= 4
  {
    if |s| == 1 then s[0] as int
    else if |s| == 2 then (s[0] as int - 0xC0) * 0x40 + (s[1] as int - 0x80)
    else if |s| == 3 then
      (s[0] as int - 0xE0) * 0x1000 + (s[1] as int - 0x80) * 0x40 + (s[2] as int - 0x80)
    else
      (s[0] as int - 0xF0) * 0x40000 + (s[1] as int - 0x80) * 0x1000
      + (s[2] as int - 0x80) * 0x40 + (s[3] as int - 0x80)
  }

  /** The tests of the C code on a complete sequence, in one place. */
  predicate Legal(s: seq<byte>) {
    && 2 <= |s| <= 4
    && NumChars(s[0]) == |s|
    && (forall i | 1 <= i < |s| :: IsCont(s[i]))
    && IsShortest(s, |s|) && !IsSurrogate(s, |s|) && !IsIllegal(s, |s|)
  }

  /** The byte tests accept exactly the encodings of scalars: acceptance. */
  lemma LegalIsScalar(s: seq<byte>)
    requires Legal(s)
    ensures Scalar(Compose(s)) && Encode(Compose(s)) == s
  {
    assert IsCont(s[1]);
    assert |s| > 2 ==> IsCont(s[2]);
    assert |s| > 3 ==> IsCont(s[3]);
    if |s| == 2 {
      LegalTwo(s);
    } else if |s| == 3 {
      LegalThree(s);
    } else {
      LegalFour(s);
    }
  }

  lemma LegalTwo(s: seq<byte>)
    requires |s| == 2 && Legal(s) && IsCont(s[1])
    ensures Scalar(Compose(s)) && Encode(Compose(s)) == s
  {
    assert 0x80 <= Compose(s) <= 0x7FF;
  }

  lemma LegalThree(s: seq<byte>)
    requires |s| == 3 && Legal(s) && IsCont(s[1]) && IsCont(s[2])
    ensures Scalar(Compose(s)) && Encode(Compose(s)) == s
  {
    var a, b, c := s[0] as int - 0xE0, s[1] as int - 0x80, s[2] as int - 0x80;
    Digits(0, a, b, c);
    assert Compose(s) == a * 0x1000 + b * 0x40 + c;
    assert a == 0 ==> b >= 0x20;
    assert a == 0x0D ==> b < 0x20;
    assert 0x800 <= Compose(s) <= 0xFFFF;
  }

  lemma LegalFour(s: seq<byte>)
    requires |s| == 4 && Legal(s) && IsCont(s[1]) && IsCont(s[2]) && IsCont(s[3])
    ensures Scalar(Compose(s)) && Encode(Compose(s)) == s
  {
    var a, b, c, d := s[0] as int - 0xF0, s[1] as int - 0x80, s[2] as int - 0x80, s[3] as int - 0x80;
    Digits(a, b, c, d);
    assert Compose(s) == a * 0x40000 + b * 0x1000 + c * 0x40 + d;
    assert a == 0 ==> b >= 0x10;
    assert 0x10000 <= Compose(s) <= 0x1FFFFF;
  }

  /** Four base-64 digits are read back by division. */
  lemma Digits(a: int, b: int, c: int, d: int)
    requires 0 <= a && 0 <= b < 0x40 && 0 <= c < 0x40 && 0 <= d < 0x40
    ensures var cp := a * 0x40000 + b * 0x1000 + c * 0x40 + d;
            && cp / 0x40 == a * 0x1000 + b * 0x40 + c && cp % 0x40 == d
            && cp / 0x1000 == a * 0x40 + b && cp / 0x40 % 0x40 == c
            && cp / 0x40000 == a && cp / 0x1000 % 0x40 == b
  {
  }

  /** The byte tests accept exactly the encodings of scalars: every encoding passes them. */
  lemma ScalarIsLegal(cp: int)
    requires Scalar(cp)
    ensures var e := Encode(cp);
            Compose(e) == cp && (|e| == 1 ==> 0x01 <= e[0] <= 0x7F) && (|e| > 1 ==> e[0] > 0x7F && Legal(e))
  {
    if cp <= 0x7F {
    } else if cp <= 0x7FF {
      ScalarTwo(cp);
    } else if cp <= 0xFFFF {
      ScalarThree(cp);
    } else {
      ScalarFour(cp);
    }
  }

  lemma ScalarTwo(cp: int)
    requires 0x80 <= cp <= 0x7FF
    ensures var e := Encode(cp); |e| == 2 && Compose(e) == cp && e[0] > 0x7F && Legal(e)
  {
  }

  lemma ScalarThree(cp: int)
    requires Scalar(cp) && 0x800 <= cp <= 0xFFFF
    ensures var e := Encode(cp); |e| == 3 && Compose(e) == cp && e[0] > 0x7F && Legal(e)
  {
    var a, b, c := cp / 0x1000, cp / 0x40 % 0x40, cp % 0x40;
    assert cp == a * 0x1000 + b * 0x40 + c;
    assert a == 0 ==> b >= 0x20;
    assert a == 0x0D ==> b < 0x20;
    assert a == 0x0F && b == 0x3F ==> c < 0x3E;
  }

  lemma ScalarFour(cp: int)
    requires 0x10000 <= cp <= 0x1FFFFF
    ensures var e := Encode(cp); |e| == 4 && Compose(e) == cp && e[0] > 0x7F && Legal(e)
  {
    var a, b, c, d := cp / 0x40000, cp / 0x1000 % 0x40, cp / 0x40 % 0x40, cp % 0x40;
    FourDigits(cp);
    LegalFromDigits(a, b, c, d);
    assert Encode(cp) == [(0xF0 + a) as byte, (0x80 + b) as byte, (0x80 + c) as byte, (0x80 + d) as byte];
  }

  lemma FourDigits(cp: int)
    requires 0x10000 <= cp <= 0x1FFFFF
    ensures var a, b, c, d := cp / 0x40000, cp / 0x1000 % 0x40, cp / 0x40 % 0x40, cp % 0x40;
            cp == a * 0x40000 + b * 0x1000 + c * 0x40 + d && 0 <= a < 8 && (a == 0 ==> b >= 0x10)
  {
    var x := cp / 0x40;
    var y := x / 0x40;
    assert cp == x * 0x40 + cp % 0x40 && x == y * 0x40 + x % 0x40 && y == y / 0x40 * 0x40 + y % 0x40;
    assert cp / 0x1000 == y;
    assert cp / 0x40000 == y / 0x40;
  }

  lemma LegalFromDigits(a: int, b: int, c: int, d: int)
    requires 0 <= a < 8 && 0 <= b < 0x40 && 0 <= c < 0x40 && 0 <= d < 0x40 && (a == 0 ==> b >= 0x10)
    ensures var e := [(0xF0 + a) as byte, (0x80 + b) as byte, (0x80 + c) as byte, (0x80 + d) as byte];
            Legal(e) && Compose(e) == a * 0x40000 + b * 0x1000 + c * 0x40 + d
  {
  }

  /** A multi-byte token is its own first bytes, and they are legal; anything else is one ASCII byte. */
  lemma TokenShape(s: seq<byte>)
    requires s != []
    ensures var t := NextToken(s);
            || (|t.emit| == 1 && 0x01 <= t.emit[0] <= 0x7F)
            || (t.emit == s[..t.len] && Legal(t.emit))
  {
    var n := NumChars(s[0]);
    if s[0] > 0x7F && 1 < n < 5 && CountCont(s, n, 1) == n {
      var e := s[..n];
      assert e[0] == s[0] && e[1] == s[1];
      assert n > 2 ==> e[2] == s[2];
      assert n > 3 ==> e[3] == s[3];
      assert IsShortest(e, n) == IsShortest(s, n);
    }
  }

  /** A token never reaches into the next one: after its first byte there are continuation bytes only. */
  lemma TokenTail(s: seq<byte>)
    requires s != []
    ensures forall i | 1 <= i < NextToken(s).len :: IsCont(s[i])
  {
  }

  /** The code point a token stands for; a rejected run of bytes reads as '?'. */
  function TokenScalar(s: seq<byte>): int
    requires s != []
  {
    var e := NextToken(s).emit;
    if 1 <= |e| <= 4 then Compose(e) else 0
  }

  lemma TokenIsScalar(s: seq<byte>)
    requires s != []
    ensures Scalar(TokenScalar(s)) && NextToken(s).emit == Encode(TokenScalar(s))
  {
    TokenShape(s);
    var e := NextToken(s).emit;
    if |e| > 1 {
      LegalIsScalar(e);
    }
  }

  /** The code points the sanitizer reads from any byte string. */
  function Decode(s: seq<byte>): seq<int> {
    if s == [] then [] else [TokenScalar(s)] + Decode(s[NextToken(s).len..])
  }

  lemma {:induction false} DecodeIsScalar(s: seq<byte>)
    ensures AllScalar(Decode(s))
  {
    if s != [] {
      TokenIsScalar(s);
      DecodeIsScalar(s[NextToken(s).len..]);
    }
  }

  /** Every output is the RFC 3629 encoding of the code points read. */
  lemma {:induction false} SanitizeSound(s: seq<byte>)
    ensures AllScalar(Decode(s)) && Sanitize(s) == EncodeAll(Decode(s))
    ensures WellFormed(Sanitize(s))
  {
    DecodeIsScalar(s);
    if s != [] {
      TokenIsScalar(s);
      SanitizeSound(s[NextToken(s).len..]);
      assert Decode(s)[1..] == Decode(s[NextToken(s).len..]);
    }
  }

  // ----------------------------------------------------------------------------------------------
  // Completeness: every legal sequence is kept.
  // ----------------------------------------------------------------------------------------------

  /** A run of continuation bytes that ends inside the counter's reach is counted exactly. */
  lemma {:induction false} CountContExact(s: seq<byte>, n: nat, v: nat)
    requires v <= n <= |s|
    requires forall i | v <= i < n :: IsCont(s[i])
    requires n < |s| ==> !IsCont(s[n])
    ensures CountCont(s, n, v) == n
    decreases n - v
  {
    if v < n {
      CountContExact(s, n, v + 1);
    }
  }

  /** And a continuation byte behind the run is counted with it. */
  lemma {:induction false} CountContPast(s: seq<byte>, n: nat, v: nat)
    requires v <= n < |s|
    requires forall i | v <= i <= n :: IsCont(s[i])
    ensures CountCont(s, n, v) == n + 1
    decreases n - v
  {
    if v < n {
      CountContPast(s, n, v + 1);
    } else {
      assert CountCont(s, n, n + 1) == n + 1;
    }
  }

  /** No stray continuation byte stands behind the sequence. */
  predicate NotFollowed(cp: int, rest: seq<byte>) {
    cp <= 0x7F || rest == [] || !IsCont(rest[0])
  }

  /** The sequence of a code point is kept exactly if no continuation byte follows it; otherwise the counter
      runs one past it, and the sequence is lost together with the stray byte. */
  lemma TokenOfEncoding(cp: int, rest: seq<byte>)
    requires Scalar(cp)
    ensures NextToken(Encode(cp) + rest) == Token(Encode(cp), |Encode(cp)|) <==> NotFollowed(cp, rest)
    ensures !NotFollowed(cp, rest) ==> NextToken(Encode(cp) + rest) == Token([QUESTION], |Encode(cp)| + 1)
    ensures NotFollowed(cp, rest) ==> TokenScalar(Encode(cp) + rest) == cp
  {
    var e := Encode(cp);
    ScalarIsLegal(cp);
    if |e| > 1 {
      if NotFollowed(cp, rest) {
        TokenOfLegal(e, rest);
      } else {
        TokenPastLegal(e, rest);
      }
    }
  }

  lemma TokenPastLegal(e: seq<byte>, rest: seq<byte>)
    requires Legal(e) && rest != [] && IsCont(rest[0])
    ensures NextToken(e + rest) == Token([QUESTION], |e| + 1)
  {
    var s := e + rest;
    forall i | 1 <= i <= |e| ensures IsCont(s[i]) {
      assert i < |e| ==> s[i] == e[i];
    }
    CountContPast(s, |e|, 1);
    assert s[0] == e[0];
  }

  lemma TokenOfLegal(e: seq<byte>, rest: seq<byte>)
    requires Legal(e)
    requires rest != [] ==> !IsCont(rest[0])
    ensures NextToken(e + rest) == Token(e, |e|)
  {
    var s := e + rest;
    CountContExact(s, |e|, 1);
    assert s[..|e|] == e;
    assert s[0] == e[0] && s[1] == e[1];
    assert |e| > 2 ==> s[2] == e[2];
    assert |e| > 3 ==> s[3] == e[3];
    assert IsShortest(s, |e|) == IsShortest(e, |e|);
  }

  // ----------------------------------------------------------------------------------------------
  // Everything else becomes question marks
  // ----------------------------------------------------------------------------------------------

  /** The encoding of an allowed code point beyond ASCII. */
  ghost predicate IsEncoding(s: seq<byte>) {
    exists cp :: Scalar(cp) && cp > 0x7F && Encode(cp) == s
  }

  lemma EncodingIsLegal(s: seq<byte>)
    ensures IsEncoding(s) <==> Legal(s)
    ensures IsEncoding(s) ==> 2 <= |s| == NumChars(s[0]) <= 4
  {
    if IsEncoding(s) {
      var cp :| Scalar(cp) && cp > 0x7F && Encode(cp) == s;
      ScalarIsLegal(cp);
      LongEncoding(cp);
    }
    if Legal(s) {
      LegalIsScalar(s);
      assert s[0] > 0x7F;
    }
  }

  lemma LongEncoding(cp: int)
    requires Scalar(cp)
    ensures |Encode(cp)| > 1 <==> cp > 0x7F
  {
  }

  /** The bytes all are 10xxxxxx. */
  predicate AllCont(run: seq<byte>) {
    forall i | 0 <= i < |run| :: 0x80 <= run[i] <= 0xBF
  }

  lemma {:induction false} CountContStops(s: seq<byte>, n: nat, v: nat, end: nat)
    requires 1 <= v <= end <= |s| && v <= n + 1
    requires forall i | v <= i < end :: IsCont(s[i])
    requires end > n || end == |s| || !IsCont(s[end])
    ensures CountCont(s, n, v) == if end <= n then end else n + 1
    decreases end - v
  {
    if v < end && v <= n {
      CountContStops(s, n, v + 1, end);
    }
  }

  /** A byte and the continuation bytes behind it, as far as they go or as many as the byte announces. */
  predicate IsRun(c: byte, run: seq<byte>, rest: seq<byte>) {
    AllCont(run) && (|run| >= NumChars(c) || rest == [] || !(0x80 <= rest[0] <= 0xBF))
  }

  /** What any byte other than ASCII makes of the bytes behind it: it takes the continuation bytes, at most
      one more than it announces, and all of them are one question mark unless they are an encoding. */
  lemma TokenOfRun(c: byte, run: seq<byte>, rest: seq<byte>)
    requires IsRun(c, run, rest)
    ensures var t := NextToken([c] + run + rest);
            if NumChars(c) == 1 then t == Token([if 1 <= c <= 0x7F then c else QUESTION], 1)
            else
              && t.len == 1 + (if |run| < NumChars(c) then |run| else NumChars(c))
              && t.emit == if IsEncoding([c] + run) then [c] + run else [QUESTION]
  {
    var s, n := [c] + run + rest, NumChars(c);
    EncodingIsLegal([c] + run);
    if n > 1 {
      assert s[0] == c;
      forall i | 1 <= i < 1 + |run| ensures IsCont(s[i]) {
        assert s[i] == run[i - 1];
      }
      assert 1 + |run| < |s| ==> s[1 + |run|] == rest[0];
      CountContStops(s, n, 1, 1 + |run|);
      if 1 + |run| == n {
        assert s[..n] == [c] + run;
        LegalTests(s, n);
      }
    }
  }

  /** The tests look at the sequence only. */
  lemma LegalTests(s: seq<byte>, n: nat)
    requires 2 <= n <= |s| && n == NumChars(s[0]) && forall i | 1 <= i < n :: IsCont(s[i])
    ensures Legal(s[..n]) <==> n < 5 && IsShortest(s, n) && !IsSurrogate(s, n) && !IsIllegal(s, n)
  {
    var e := s[..n];
    assert e[0] == s[0] && e[1] == s[1];
    assert n > 2 ==> e[2] == s[2];
    assert n > 3 ==> e[3] == s[3];
    if n < 5 {
      assert IsShortest(e, n) == IsShortest(s, n);
    }
  }

  /** A sequence that breaks off, or is complete and not an encoding, or has one byte too many: one question
      mark for all of it. */
  lemma BrokenSequence(c: byte, run: seq<byte>, rest: seq<byte>)
    requires IsRun(c, run, rest) && 1 < NumChars(c) && |run| <= NumChars(c) && !IsEncoding([c] + run)
    ensures Sanitize([c] + run + rest) == [QUESTION] + Sanitize(rest)
  {
    var s := [c] + run + rest;
    TokenOfRun(c, run, rest);
    assert s[1 + |run|..] == rest;
  }

  /** The sequence of any code point, cut short. */
  lemma TruncatedSequence(cp: int, k: nat, rest: seq<byte>)
    requires Scalar(cp) && 1 <= k < |Encode(cp)|
    requires rest != [] ==> !IsCont(rest[0])
    ensures Sanitize(Encode(cp)[..k] + rest) == [QUESTION] + Sanitize(rest)
  {
    var e := Encode(cp);
    var c, run := e[0], e[1..k];
    LongEncoding(cp);
    ScalarIsLegal(cp);
    EncodingIsLegal(e);
    assert e[..k] == [c] + run;
    EncodingIsLegal([c] + run);
    forall i | 0 <= i < |run| ensures 0x80 <= run[i] <= 0xBF {
      assert run[i] == e[i + 1] && IsCont(e[i + 1]);
    }
    BrokenSequence(c, run, rest);
  }

  /** Of the complete sequences exactly these are no encodings: the overlong ones, the surrogates and the two
      noncharacters. */
  lemma RejectedComplete(c: byte, run: seq<byte>)
    requires 2 <= NumChars(c) <= 4 && |run| == NumChars(c) - 1 && AllCont(run)
    ensures !IsEncoding([c] + run) <==>
            || c == 0xC0 || c == 0xC1
            || (c == 0xE0 && run[0] < 0xA0) || (c == 0xF0 && run[0] < 0x90)
            || (c == 0xED && run[0] >= 0xA0)
            || (c == 0xEF && run[0] == 0xBF && run[1] >= 0xBE)
  {
    var s := [c] + run;
    EncodingIsLegal(s);
    forall i | 1 <= i < |s| ensures IsCont(s[i]) {
      assert s[i] == run[i - 1];
    }
    assert s[..|s|] == s;
    LegalTests(s, |s|);
    assert s[1] == run[0];
    assert |s| > 2 ==> s[2] == run[1];
    assert |s| > 3 ==> s[3] == run[2];
  }

  /** A byte that starts no sequence is one question mark by itself. */
  lemma LoneByte(c: byte, rest: seq<byte>)
    requires c == 0 || 0x80 <= c <= 0xBF || 0xFE <= c
    ensures Sanitize([c] + rest) == [QUESTION] + Sanitize(rest)
  {
    var s := [c] + rest;
    assert s[1..] == rest;
  }

  lemma EncodeAllStart(cps: seq<int>)
    requires AllScalar(cps)
    ensures EncodeAll(cps) != [] ==> !IsCont(EncodeAll(cps)[0])
  {
    if cps != [] {
      ScalarIsLegal(cps[0]);
    }
  }

  /** Well-formed text passes unchanged, and its code points are read back. */
  lemma {:induction false} EncodingIsKept(cps: seq<int>)
    requires AllScalar(cps)
    ensures Sanitize(EncodeAll(cps)) == EncodeAll(cps)
    ensures Decode(EncodeAll(cps)) == cps
  {
    if cps != [] {
      var e, rest := Encode(cps[0]), EncodeAll(cps[1..]);
      EncodingIsKept(cps[1..]);
      EncodeAllStart(cps[1..]);
      TokenOfEncoding(cps[0], rest);
      assert (e + rest)[|e|..] == rest;
    }
  }

  /** The sanitizer changes a string exactly when the string is not well-formed. */
  lemma SanitizeFixedPoint(s: seq<byte>)
    ensures Sanitize(s) == s <==> WellFormed(s)
  {
    SanitizeSound(s);
    if WellFormed(s) {
      var cps: seq<int> :| AllScalar(cps) && s == EncodeAll(cps);
      EncodingIsKept(cps);
    }
  }

  lemma SanitizeIdempotent(s: seq<byte>)
    ensures Sanitize(Sanitize(s)) == Sanitize(s)
  {
    SanitizeSound(s);
    SanitizeFixedPoint(Sanitize(s));
  }

  lemma {:induction false} SanitizeNotLonger(s: seq<byte>)
    ensures |Sanitize(s)| <= |s|
  {
    if s != [] {
      SanitizeNotLonger(s[NextToken(s).len..]);
    }
  }

  /** A complete sequence of any length followed by a stray continuation byte is lost with it. */
  lemma StrayContinuationSpoilsSequence(cp: int, stray: byte, rest: seq<byte>)
    requires Scalar(cp) && cp > 0x7F && IsCont(stray)
    ensures WellFormed(Encode(cp))
    ensures Sanitize(Encode(cp) + [stray] + rest) == [QUESTION] + Sanitize(rest)
  {
    var e, s := Encode(cp), Encode(cp) + [stray] + rest;
    assert EncodeAll([cp]) == Encode(cp) + EncodeAll([]);
    assert s == e + ([stray] + rest) && ([stray] + rest)[0] == stray;
    TokenOfEncoding(cp, [stray] + rest);
    assert s[|e| + 1..] == rest;
  }

  /** The text of section 3 of RFC 3629, which ends at 10FFFF. */
  ghost predicate IsRfcText(s: seq<byte>) {
    exists cps: seq<int> :: AllScalar(cps) && InUnicode(cps) && s == EncodeAll(cps)
  }

  predicate InUnicode(cps: seq<int>) {
    forall i | 0 <= i < |cps| :: cps[i] <= 0x10FFFF
  }

  /** The output is that of a sanitizer after RFC 3629 exactly if no code point read lies beyond 10FFFF. */
  lemma OutputIsRfcIff(s: seq<byte>)
    ensures IsRfcText(Sanitize(s)) <==> InUnicode(Decode(s))
  {
    SanitizeSound(s);
    if IsRfcText(Sanitize(s)) {
      var cps: seq<int> :| AllScalar(cps) && InUnicode(cps) && Sanitize(s) == EncodeAll(cps);
      EncodingIsKept(cps);
      EncodingIsKept(Decode(s));
    }
  }

  /** The first code point beyond: F4 90 80 80 passes. */
  lemma BeyondUnicodePasses()
    ensures Encode(0x110000) == [0xF4, 0x90, 0x80, 0x80]
    ensures Sanitize(Encode(0x110000)) == Encode(0x110000) && !IsRfcText(Encode(0x110000))
  {
    var cps := [0x110000];
    assert EncodeAll(cps) == Encode(0x110000) + EncodeAll([]);
    EncodingIsKept(cps);
    OutputIsRfcIff(EncodeAll(cps));
    assert cps[0] > 0x10FFFF;
  }

  // ----------------------------------------------------------------------------------------------
  // Closure facts for the filters built on top.
  // ----------------------------------------------------------------------------------------------

  lemma {:induction false} EncodeAllConcat(a: seq<int>, b: seq<int>)
    requires AllScalar(a) && AllScalar(b)
    ensures AllScalar(a + b) && EncodeAll(a + b) == EncodeAll(a) + EncodeAll(b)
  {
    if a == [] {
      assert a + b == b;
    } else {
      EncodeAllConcat(a[1..], b);
      assert (a + b)[1..] == a[1..] + b && (a + b)[0] == a[0];
      var first, rest := Encode(a[0]), EncodeAll(a[1..]);
      assert EncodeAll(a + b) == first + EncodeAll(a[1..] + b);
      assert first + (rest + EncodeAll(b)) == (first + rest) + EncodeAll(b);
    }
  }

  lemma WellFormedConcat(s: seq<byte>, t: seq<byte>)
    requires WellFormed(s) && WellFormed(t)
    ensures WellFormed(s + t)
  {
    var a: seq<int> :| AllScalar(a) && s == EncodeAll(a);
    var b: seq<int> :| AllScalar(b) && t == EncodeAll(b);
    EncodeAllConcat(a, b);
  }

  lemma WellFormedToken(s: seq<byte>)
    requires s != []
    ensures WellFormed(NextToken(s).emit)
  {
    TokenIsScalar(s);
    assert EncodeAll([TokenScalar(s)]) == Encode(TokenScalar(s)) + EncodeAll([]);
  }

  lemma {:induction false} WellFormedAscii(s: seq<byte>)
    requires forall i | 0 <= i < |s| :: 0x01 <= s[i] <= 0x7F
    ensures WellFormed(s)
  {
    if s == [] {
      assert EncodeAll([]) == [];
    } else {
      assert s == [s[0]] + s[1..];
      WellFormedAscii(s[1..]);
      WellFormedToken([s[0]]);
      assert NextToken([s[0]]).emit == [s[0]];
      WellFormedConcat([s[0]], s[1..]);
    }
  }
}
