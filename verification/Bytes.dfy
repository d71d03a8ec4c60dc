/** Bytes, C-locale character classes and the few sequence facts shared by every module. */
module Bytes {

  newtype byte = b: int | 0 <= b < 0x100

  datatype Option<+T> = None | Some(value: T)

  // ASCII codes the programs compare against.
  const NUL: byte := 0x00
  const TAB: byte := 0x09
  const LF: byte := 0x0A
  const CR: byte := 0x0D
  const SPACE: byte := 0x20
  const QUOTE: byte := 0x22      // "
  const HASH: byte := 0x23       // #
  const PERCENT: byte := 0x25    // %
  const AMP: byte := 0x26        // &
  const APOS: byte := 0x27       // '
  const PLUS: byte := 0x2B       // +
  const MINUS: byte := 0x2D      // -
  const SLASH: byte := 0x2F      // /
  const COLON: byte := 0x3A      // :
  const SEMI: byte := 0x3B       // ;
  const LT: byte := 0x3C         // <
  const EQUALS: byte := 0x3D     // =
  const GT: byte := 0x3E         // >
  const QUESTION: byte := 0x3F   // ?
  const BACKSLASH: byte := 0x5C  // \
  const UNDERSCORE: byte := 0x5F // _

  /** The bytes of an ASCII text. */
  function Ascii(s: string): (b: seq<byte>)
    ensures |b| == |s|
    ensures forall i | 0 <= i < |s| && s[i] < 128 as char :: b[i] == s[i] as byte
  {
    seq(|s|, i requires 0 <= i < |s| => if s[i] < 128 as char then s[i] as byte else 0)
  }

  /** isspace() of the C locale. */
  predicate IsSpace(c: byte) {
    c == SPACE || 0x09 <= c <= 0x0D
  }

  /** isalpha() of the C locale. */
  predicate IsAlpha(c: byte) {
    0x41 <= c <= 0x5A || 0x61 <= c <= 0x7A
  }

  predicate IsDigit(c: byte) {
    0x30 <= c <= 0x39
  }

  /** The blanks skipped next to the dash of a template tag. */
  predicate IsBlank(c: byte) {
    c == SPACE || c == TAB
  }

  /** Position of the first NUL, as strlen() finds it. */
  function StrLen(s: seq<byte>): (n: nat)
    ensures n <= |s|
    ensures forall i | 0 <= i < n :: s[i] != NUL
    ensures n < |s| ==> s[n] == NUL
  {
    if s == [] || s[0] == NUL then 0 else 1 + StrLen(s[1..])
  }

  /** `memory` starts with the NUL-terminated string `text`. */
  ghost predicate HoldsString(memory: seq<byte>, text: seq<byte>) {
    |text| < |memory| && memory[..|text|] == text && memory[|text|] == NUL
  }

  /** What a loop that writes `emit` keeps: the part done and the part to come are the whole. */
  lemma MoveOver(whole: seq<byte>, done: seq<byte>, emit: seq<byte>, rest: seq<byte>, tail: seq<byte>, now: seq<byte>)
    requires done + rest == whole && rest == emit + tail && now == done + emit
    ensures now + tail == whole
  {
    assert done + (emit + tail) == (done + emit) + tail;
  }

  lemma StrLenIs(s: seq<byte>, n: nat)
    requires n < |s| && s[n] == NUL
    requires forall i | 0 <= i < n :: s[i] != NUL
    ensures StrLen(s) == n
  {
  }

  /** `n` copies of one byte. */
  function Fill(c: byte, n: nat): (r: seq<byte>)
    ensures |r| == n
    ensures forall i | 0 <= i < n :: r[i] == c
  {
    if n == 0 then [] else [c] + Fill(c, n - 1)
  }

  /** The parts, one after the other. */
  function Concat(parts: seq<seq<byte>>): seq<byte> {
    if parts == [] then [] else parts[0] + Concat(parts[1..])
  }
}
