/** The line state machine of `main` (po2lmo.c) and the PO files it is meant for. */
module PoReader {
  import opened Bytes
  import opened PoQuoting

  const LINE_BUFFER: nat := 4096

  // "msgid " and "msgstr "; the opening quote follows.
  const MSGID: seq<byte> := [0x6D, 0x73, 0x67, 0x69, 0x64, 0x20]
  const MSGSTR: seq<byte> := [0x6D, 0x73, 0x67, 0x73, 0x74, 0x72, 0x20]

  /** What fgets() can leave in the line buffer: no NUL is seen, a newline is the last byte. */
  predicate IsLine(line: seq<byte>) {
    && NUL !in line
    && |line| < LINE_BUFFER
    && forall i | 0 <= i < |line| :: line[i] == LF ==> i == |line| - 1
  }

  /** strstr(line, prefix) == line */
  predicate StartsWith(line: seq<byte>, prefix: seq<byte>) {
    |prefix| <= |line| && line[..|prefix|] == prefix
  }

  predicate IsMsgId(line: seq<byte>) {
    StartsWith(line, MSGID + [QUOTE])
  }

  predicate IsMsgStr(line: seq<byte>) {
    StartsWith(line, MSGSTR + [QUOTE])
  }

  type Pair = (seq<byte>, seq<byte>)

  /** `state` is 0..3 between lines; `pairs` are the key and value texts flushed so far; `tmp` is the part of
      the buffer for continuation lines that was ever written. */
  datatype PoState = PoState(state: nat, key: seq<byte>, val: seq<byte>, pairs: seq<Pair>, tmp: seq<byte>)

  const START: PoState := PoState(0, [], [], [], [])

  /** The block of state 4. */
  function Flush(st: PoState): PoState {
    st.(state := 0, key := [], val := [],
        pairs := if st.key != [] && st.val != [] then st.pairs + [(st.key, st.val)] else st.pairs)
  }

  /** What extract_string leaves in a buffer that starts with the bytes `was`: without a closing quote no
      terminator is written, and the old bytes go on behind the text. */
  function Left(q: Quoted, was: seq<byte>): seq<byte> {
    var now := if q.closed then q.text + [NUL] else q.text;
    now + if |now| < |was| then was[|now|..] else []
  }

  /** The C string at the start of memory. */
  function CString(mem: seq<byte>): (s: seq<byte>)
    ensures NUL !in s
  {
    mem[..StrLen(mem)]
  }

  /** The line is read through `tmp` and added to the key or to the value. */
  predicate Continues(st: PoState, line: seq<byte>) {
    (st.state == 1 && !IsMsgStr(line)) || st.state == 3
  }

  function Step(st: PoState, line: seq<byte>): PoState {
    var text := Extract(line);
    if st.state == 0 then
      if IsMsgId(line) && text.Some? then
        st.(state := if text.value.text == [] then 1 else 2, key := text.value.text)
      else st
    else if Continues(st, line) then
      if text.None? then if st.state == 1 then st.(state := 2) else Flush(st)
      else
        var tmp := Left(text.value, st.tmp);
        if st.state == 1 then st.(key := st.key + CString(tmp), tmp := tmp)
        else st.(val := st.val + CString(tmp), tmp := tmp)
    else if st.state <= 2 then
      if text.None? then Flush(st) else st.(state := 3, val := text.value.text)
    else st
  }

  function Run(st: PoState, lines: seq<seq<byte>>): PoState
    decreases |lines|
  {
    if lines == [] then st else Run(Step(st, lines[0]), lines[1..])
  }

  /** At the end of the file the loop goes on, on an empty line, while the state is 2 or more. */
  function AtEof(st: PoState): PoState {
    if st.state >= 2 then Step(st, []) else st
  }

  /** The key and value texts of a PO file, in order. */
  function Collect(lines: seq<seq<byte>>): seq<Pair> {
    AtEof(Run(START, lines)).pairs
  }

  /** The line can be handled in the buffers of `main`: of `tmp` only bytes are read that were written, and
      what the text is added to does not outgrow its buffer. */
  predicate Fits(st: PoState, line: seq<byte>) {
    && IsLine(line)
    && (Continues(st, line) && Extract(line).Some? ==>
          var tmp := Left(Extract(line).value, st.tmp);
          && NUL in tmp
          && |if st.state == 1 then st.key else st.val| + |CString(tmp)| < LINE_BUFFER)
  }

  predicate AllFit(st: PoState, lines: seq<seq<byte>>)
    decreases |lines|
  {
    lines != [] ==> Fits(st, lines[0]) && AllFit(Step(st, lines[0]), lines[1..])
  }

  lemma {:induction false} RunConcat(st: PoState, a: seq<seq<byte>>, b: seq<seq<byte>>)
    ensures Run(st, a + b) == Run(Run(st, a), b)
    ensures AllFit(st, a + b) <==> AllFit(st, a) && AllFit(Run(st, a), b)
    decreases |a|
  {
    if a == [] {
      assert a + b == b;
    } else {
      assert (a + b)[1..] == a[1..] + b;
      RunConcat(Step(st, a[0]), a[1..], b);
    }
  }

  // ----------------------------------------------------------------------------------------------
  // PO files
  // ----------------------------------------------------------------------------------------------

  /** The text between the quotes of a line. */
  function TextOf(line: seq<byte>): seq<byte> {
    var q := Extract(line);
    if q.Some? then q.value.text else []
  }

  function Texts(lines: seq<seq<byte>>): seq<byte> {
    if lines == [] then [] else TextOf(lines[0]) + Texts(lines[1..])
  }

  /** A line with a text between two quotes, whatever escapes the text holds. */
  predicate IsContinuation(line: seq<byte>) {
    IsLine(line) && Extract(line).Some? && Extract(line).value.closed
  }

  predicate AllContinuations(lines: seq<seq<byte>>) {
    forall i | 0 <= i < |lines| :: IsContinuation(lines[i])
  }

  /** An entry by its lines: those before it, the msgid line, the msgstr line and their continuations. */
  datatype PoEntry = PoEntry(before: seq<seq<byte>>, id: seq<byte>, idMore: seq<seq<byte>>,
                             str: seq<byte>, strMore: seq<seq<byte>>)

  /** What the entry says. */
  function KeyText(e: PoEntry): seq<byte> {
    TextOf(e.id) + Texts(e.idMore)
  }

  function ValText(e: PoEntry): seq<byte> {
    TextOf(e.str) + Texts(e.strMore)
  }

  /** An entry without the line that ends it. */
  function EntryLines(e: PoEntry): seq<seq<byte>> {
    e.before + (IdLines(e) + StrLines(e))
  }

  function IdLines(e: PoEntry): seq<seq<byte>> {
    [e.id] + e.idMore
  }

  function StrLines(e: PoEntry): seq<seq<byte>> {
    [e.str] + e.strMore
  }

  /** Every entry is followed by a line without a quote. */
  function FileLines(es: seq<PoEntry>, ends: seq<seq<byte>>): seq<seq<byte>>
    requires |es| == |ends|
  {
    if es == [] then [] else EntryLines(es[0]) + [ends[0]] + FileLines(es[1..], ends[1..])
  }

  /** The syntax of an entry. The lines in front of it are not msgid lines; behind the msgstr line every line
      with a quoted text continues the value. */
  predicate IsEntry(e: PoEntry) {
    && (forall i | 0 <= i < |e.before| :: IsLine(e.before[i]) && !IsMsgId(e.before[i]))
    && IsLine(e.id) && IsMsgId(e.id)
    && AllContinuations(e.idMore) && (forall i | 0 <= i < |e.idMore| :: !IsMsgStr(e.idMore[i]))
    && IsLine(e.str) && IsMsgStr(e.str) && (e.idMore != [] ==> IsContinuation(e.str))
    && AllContinuations(e.strMore)
  }

  /** The key is on the msgid line or on the lines below it, not on both. */
  predicate KeyInOnePlace(e: PoEntry) {
    TextOf(e.id) == [] || Texts(e.idMore) == []
  }

  /** What the machine is meant for: the key in one place, and texts that fit the buffers. */
  predicate Accepted(e: PoEntry) {
    IsEntry(e) && KeyInOnePlace(e) && |KeyText(e)| < LINE_BUFFER && |ValText(e)| < LINE_BUFFER
  }

  predicate EndsEntry(line: seq<byte>) {
    IsLine(line) && QUOTE !in line
  }

  /** The pairs a reader of the file expects. */
  function Expected(es: seq<PoEntry>): seq<Pair> {
    if es == [] then [] else ExpectedOf(es[0]) + Expected(es[1..])
  }

  function ExpectedOf(e: PoEntry): seq<Pair> {
    if KeyText(e) != [] && ValText(e) != [] then [(KeyText(e), ValText(e))] else []
  }

  // ----------------------------------------------------------------------------------------------
  // Entries printed from texts
  // ----------------------------------------------------------------------------------------------

  function QuotedLine(keyword: seq<byte>, text: seq<byte>): seq<byte> {
    keyword + [QUOTE] + (Quote(text) + [QUOTE] + [LF])
  }

  function QuotedLines(parts: seq<seq<byte>>): (lines: seq<seq<byte>>)
    ensures |lines| == |parts|
  {
    if parts == [] then [] else [QuotedLine([], parts[0])] + QuotedLines(parts[1..])
  }

  function Printed(key: seq<byte>, keyMore: seq<seq<byte>>, val: seq<byte>, valMore: seq<seq<byte>>): PoEntry {
    PoEntry([], QuotedLine(MSGID, key), QuotedLines(keyMore), QuotedLine(MSGSTR, val), QuotedLines(valMore))
  }

  ghost predicate AllLines(lines: seq<seq<byte>>) {
    forall i | 0 <= i < |lines| :: IsLine(lines[i])
  }

  lemma QuotedLineText(keyword: seq<byte>, text: seq<byte>)
    requires QUOTE !in keyword
    ensures Extract(QuotedLine(keyword, text)) == Some(Quoted(text, true))
  {
    ExtractQuoted(keyword, text, [LF]);
  }

  lemma QuotedLineKind(text: seq<byte>)
    ensures IsMsgId(QuotedLine(MSGID, text))
    ensures IsMsgStr(QuotedLine(MSGSTR, text))
    ensures !IsMsgStr(QuotedLine([], text))
  {
    var id, str, cont := QuotedLine(MSGID, text), QuotedLine(MSGSTR, text), QuotedLine([], text);
    assert id[..7] == MSGID + [QUOTE];
    assert str[..8] == MSGSTR + [QUOTE];
    assert cont[0] == QUOTE;
  }

  lemma {:induction false} QuotedLinesText(parts: seq<seq<byte>>)
    requires AllLines(QuotedLines(parts))
    ensures AllContinuations(QuotedLines(parts)) && Texts(QuotedLines(parts)) == Concat(parts)
    ensures forall i | 0 <= i < |parts| :: !IsMsgStr(QuotedLines(parts)[i])
  {
    if parts != [] {
      var lines, rest := QuotedLines(parts), QuotedLines(parts[1..]);
      assert lines[1..] == rest;
      forall i | 0 <= i < |rest| ensures IsLine(rest[i]) {
        assert lines[i + 1] == rest[i];
      }
      QuotedLinesText(parts[1..]);
      assert IsLine(lines[0]);
      QuotedLineText([], parts[0]);
      QuotedLineKind(parts[0]);
    }
  }

  /** Quoting texts gives an entry that says them. */
  lemma PrintedIsEntry(key: seq<byte>, keyMore: seq<seq<byte>>, val: seq<byte>, valMore: seq<seq<byte>>)
    requires var e := Printed(key, keyMore, val, valMore); AllLines(IdLines(e)) && AllLines(StrLines(e))
    ensures var e := Printed(key, keyMore, val, valMore);
            && IsEntry(e) && KeyText(e) == key + Concat(keyMore) && ValText(e) == val + Concat(valMore)
            && (KeyInOnePlace(e) <==> key == [] || Concat(keyMore) == [])
  {
    var e := Printed(key, keyMore, val, valMore);
    forall i | 0 <= i < |e.idMore| ensures IsLine(e.idMore[i]) {
      assert IdLines(e)[i + 1] == e.idMore[i];
    }
    forall i | 0 <= i < |e.strMore| ensures IsLine(e.strMore[i]) {
      assert StrLines(e)[i + 1] == e.strMore[i];
    }
    assert IsLine(IdLines(e)[0]) && IsLine(StrLines(e)[0]);
    QuotedLineText(MSGID, key);
    QuotedLineText(MSGSTR, val);
    QuotedLineKind(key);
    QuotedLineKind(val);
    QuotedLinesText(keyMore);
    QuotedLinesText(valMore);
  }

  /** A quoted line that ends in the escape of a newline, as the lines of a PO header do. */
  function HeaderLine(body: seq<byte>): seq<byte> {
    [QUOTE] + (body + [BACKSLASH, 0x6E, QUOTE, LF])
  }

  /** It is a continuation, and its escape is kept with the backslash. */
  lemma HeaderLineText(body: seq<byte>)
    requires |body| + 5 < LINE_BUFFER
    requires QUOTE !in body && BACKSLASH !in body && NUL !in body && LF !in body
    ensures var line := HeaderLine(body);
            IsContinuation(line) && !IsMsgStr(line) && TextOf(line) == body + [BACKSLASH, 0x6E]
  {
    var line, end := HeaderLine(body), [BACKSLASH, 0x6E, QUOTE, LF];
    forall i | 0 <= i < |line| ensures line[i] == LF ==> i == |line| - 1 {
      if 1 <= i <= |body| {
        assert line[i] == body[i - 1] && body[i - 1] in body;
      }
    }
    FirstQuoteIs(line, 0);
    assert line[1..] == body + end && line[0] == QUOTE;
    UnquotePlain(body, end);
    assert end[2..] == [QUOTE, LF];
    assert Unquote(end) == Grow([BACKSLASH, 0x6E], Unquote([QUOTE, LF])) == Quoted([BACKSLASH, 0x6E], true);
  }

  // ----------------------------------------------------------------------------------------------
  // The machine reads them
  // ----------------------------------------------------------------------------------------------

  lemma NoQuote(line: seq<byte>)
    requires QUOTE !in line
    ensures Extract(line) == None
  {
    forall i | 0 <= i < |line| ensures line[i] != QUOTE {
      assert line[i] in line;
    }
    FirstQuoteIs(line, |line|);
  }

  /** Lines before an entry are passed over. */
  lemma {:induction false} RunBefore(st: PoState, before: seq<seq<byte>>)
    requires st.state == 0
    requires forall i | 0 <= i < |before| :: IsLine(before[i]) && !IsMsgId(before[i])
    ensures Run(st, before) == st && AllFit(st, before)
    decreases |before|
  {
    if before != [] {
      assert IsLine(before[0]) && !IsMsgId(before[0]);
      RunBefore(st, before[1..]);
    }
  }

  lemma TextNoNul(line: seq<byte>)
    requires NUL !in line
    ensures NUL !in TextOf(line)
  {
    if Extract(line).Some? {
      UnquoteElements(line[FirstQuote(line) + 1..]);
    }
  }

  /** A closed text is what is read back from `tmp`, whatever was in it. */
  lemma ClosedText(line: seq<byte>, was: seq<byte>)
    requires IsContinuation(line)
    ensures var tmp := Left(Extract(line).value, was); NUL in tmp && CString(tmp) == TextOf(line)
  {
    var text, tmp := TextOf(line), Left(Extract(line).value, was);
    TextNoNul(line);
    forall i | 0 <= i < |text| ensures tmp[i] != NUL {
      assert text[i] in text;
    }
    assert tmp[|text|] == NUL;
    StrLenIs(tmp, |text|);
  }

  lemma RunFirst(st: PoState, line: seq<byte>, more: seq<seq<byte>>)
    ensures Run(st, [line] + more) == Run(Step(st, line), more)
    ensures AllFit(st, [line] + more) <==> Fits(st, line) && AllFit(Step(st, line), more)
  {
    assert ([line] + more)[1..] == more;
  }

  /** A text is added to the key in state 1, to the value in state 3. */
  predicate Added(st: PoState, text: seq<byte>, after: PoState) {
    after == if st.state == 1 then st.(key := st.key + text, tmp := after.tmp)
             else st.(val := st.val + text, tmp := after.tmp)
  }

  function Target(st: PoState): seq<byte> {
    if st.state == 1 then st.key else st.val
  }

  lemma StepContinuation(st: PoState, line: seq<byte>)
    requires Continues(st, line) && IsContinuation(line)
    ensures Added(st, TextOf(line), Step(st, line))
    ensures |Target(st)| + |TextOf(line)| < LINE_BUFFER ==> Fits(st, line)
  {
    ClosedText(line, st.tmp);
  }

  /** A continuation line adds its text exactly if it has its closing quote, or if by chance a terminator that
      an earlier line left in `tmp` stands right behind the text. */
  lemma UnclosedTextIff(st: PoState, line: seq<byte>)
    requires Fits(st, line) && Continues(st, line) && Extract(line).Some?
    ensures var q := Extract(line).value;
            Added(st, q.text, Step(st, line))
            <==> q.closed || (|q.text| < |st.tmp| && st.tmp[|q.text|] == NUL)
  {
    var q := Extract(line).value;
    var tmp := Left(q, st.tmp);
    TextNoNul(line);
    LeftText(q, st.tmp);
    SameAddition(if st.state == 1 then st.key else st.val, CString(tmp), q.text);
  }

  lemma SameAddition(s: seq<byte>, a: seq<byte>, b: seq<byte>)
    ensures s + a == s + b <==> a == b
  {
    assert (s + a)[|s|..] == a && (s + b)[|s|..] == b;
  }

  lemma LeftText(q: Quoted, was: seq<byte>)
    requires NUL !in q.text && NUL in Left(q, was)
    ensures CString(Left(q, was)) == q.text <==> q.closed || (|q.text| < |was| && was[|q.text|] == NUL)
  {
    var tmp, n := Left(q, was), |q.text|;
    assert StrLen(tmp) < |tmp|;
    forall i | 0 <= i < n ensures tmp[i] != NUL {
      assert tmp[i] == q.text[i] && q.text[i] in q.text;
    }
    assert tmp[..n] == q.text;
    assert !q.closed && n < |was| ==> tmp[n] == was[n];
    if n < |tmp| && tmp[n] == NUL {
      StrLenIs(tmp, n);
    }
  }

  lemma LeftBehind(q: Quoted, a: seq<byte>, was: seq<byte>)
    requires !q.closed && |q.text| < |a| && NUL !in q.text && NUL !in a && a + [NUL] <= was
    ensures NUL in Left(q, was) && CString(Left(q, was)) == q.text + a[|q.text|..]
  {
    var tmp, whole := Left(q, was), q.text + a[|q.text|..];
    assert (a + [NUL])[|a|] == NUL && was[|a|] == NUL;
    forall i | 0 <= i < |a| ensures tmp[i] == whole[i] && tmp[i] != NUL {
      assert was[i] == (a + [NUL])[i] == a[i];
      assert if i < |q.text| then whole[i] == q.text[i] && q.text[i] in q.text else whole[i] == a[i] && a[i] in a;
    }
    assert tmp[|a|] == NUL;
    StrLenIs(tmp, |a|);
    assert tmp[..|a|] == whole;
  }

  /** What happens otherwise: behind a closed line, the end of its text is added once more. */
  lemma LeftoverIsAdded(st: PoState, first: seq<byte>, second: seq<byte>)
    requires Continues(st, first) && IsContinuation(first) && Continues(Step(st, first), second)
    requires IsLine(second) && Extract(second).Some? && !Extract(second).value.closed
    requires |TextOf(second)| < |TextOf(first)|
    ensures var end := TextOf(first)[|TextOf(second)|..];
            && end != [] && Added(Step(st, first), TextOf(second) + end, Step(Step(st, first), second))
            && NUL in Left(Extract(second).value, Step(st, first).tmp)
  {
    TextNoNul(first);
    TextNoNul(second);
    LeftBehind(Extract(second).value, TextOf(first), Step(st, first).tmp);
  }

  /** The lines "ab" and "c, the second without its closing quote. */
  const CLOSED_LINE: seq<byte> := [QUOTE, 0x61, 0x62, QUOTE]
  const UNCLOSED_LINE: seq<byte> := [QUOTE, 0x63]

  lemma ExampleTexts()
    ensures Extract(CLOSED_LINE) == Some(Quoted([0x61, 0x62], true)) && IsContinuation(CLOSED_LINE)
    ensures Extract(UNCLOSED_LINE) == Some(Quoted([0x63], false)) && IsLine(UNCLOSED_LINE)
    ensures !IsMsgStr(CLOSED_LINE) && !IsMsgStr(UNCLOSED_LINE)
  {
    var a, b := CLOSED_LINE[1..], UNCLOSED_LINE[1..];
    assert a == [0x61, 0x62] + [QUOTE];
    UnquotePlain([0x61, 0x62], [QUOTE]);
    assert b == [0x63] + [];
    UnquotePlain([0x63], []);
    assert [0x61 as byte, 0x62] + [] == [0x61, 0x62] && [0x63 as byte] + [] == [0x63];
  }

  /** They give ab and cb. */
  lemma UnclosedLineRepeats(st: PoState)
    requires st.state == 1 && |st.key| + 4 < LINE_BUFFER
    ensures Run(st, [CLOSED_LINE, UNCLOSED_LINE]).key == st.key + [0x61, 0x62] + [0x63, 0x62]
    ensures AllFit(st, [CLOSED_LINE, UNCLOSED_LINE])
  {
    ExampleTexts();
    StepContinuation(st, CLOSED_LINE);
    LeftoverIsAdded(st, CLOSED_LINE, UNCLOSED_LINE);
    assert [0x63] + [0x61 as byte, 0x62][1..] == [0x63, 0x62];
    var next := Step(st, CLOSED_LINE);
    var tmp := Left(Extract(UNCLOSED_LINE).value, next.tmp);
    assert Step(next, UNCLOSED_LINE).key == next.key + CString(tmp);
    assert |CString(tmp)| == 2;
    RunOne(next, UNCLOSED_LINE);
    RunFirst(st, CLOSED_LINE, [UNCLOSED_LINE]);
    assert [CLOSED_LINE, UNCLOSED_LINE] == [CLOSED_LINE] + [UNCLOSED_LINE];
  }

  lemma AddedTwice(st: PoState, a: seq<byte>, mid: PoState, b: seq<byte>, after: PoState)
    requires st.state == 1 || st.state == 3
    requires Added(st, a, mid) && Added(mid, b, after)
    ensures Added(st, a + b, after)
  {
    assert (st.key + a) + b == st.key + (a + b);
    assert (st.val + a) + b == st.val + (a + b);
  }

  /** Continuation lines add their texts. */
  lemma {:induction false} RunContinuations(st: PoState, lines: seq<seq<byte>>)
    requires st.state == 1 || st.state == 3
    requires AllContinuations(lines)
    requires st.state == 1 ==> forall i | 0 <= i < |lines| :: !IsMsgStr(lines[i])
    ensures Added(st, Texts(lines), Run(st, lines))
    ensures |Target(st)| + |Texts(lines)| < LINE_BUFFER ==> AllFit(st, lines)
    decreases |lines|
  {
    if lines == [] {
      assert st.key + [] == st.key && st.val + [] == st.val;
    } else {
      var next := Step(st, lines[0]);
      assert IsContinuation(lines[0]) && Continues(st, lines[0]);
      StepContinuation(st, lines[0]);
      RunContinuations(next, lines[1..]);
      AddedTwice(st, TextOf(lines[0]), next, Texts(lines[1..]), Run(next, lines[1..]));
    }
  }

  /** What the machine takes for the key and for the value. */
  function ReadKey(e: PoEntry): seq<byte> {
    if TextOf(e.id) == [] then Texts(e.idMore) else TextOf(e.id)
  }

  function ReadVal(e: PoEntry): seq<byte> {
    if TextOf(e.id) == [] then ValText(e) else Texts(e.idMore) + ValText(e)
  }

  /** Between two entries. */
  predicate Idle(st: PoState) {
    st.state == 0 && st.key == [] && st.val == []
  }

  predicate Holds(st: PoState, key: seq<byte>, val: seq<byte>, pairs: seq<Pair>) {
    st.state == 3 && st.key == key && st.val == val && st.pairs == pairs
  }

  lemma IdHasText(line: seq<byte>)
    requires IsMsgId(line) || IsMsgStr(line)
    ensures Extract(line).Some?
  {
    if IsMsgId(line) {
      assert line[..7][6] == QUOTE;
    } else {
      assert line[..8][7] == QUOTE;
    }
    assert QUOTE in line;
  }

  /** The msgid line and what follows it. With a key on that line, the next line is taken for the value. */
  lemma RunId(st: PoState, e: PoEntry)
    requires Idle(st) && IsEntry(e)
    ensures var id := Run(st, IdLines(e));
            && id.key == ReadKey(e) && id.pairs == st.pairs
            && (if TextOf(e.id) == [] then id.state == 1
                else if e.idMore == [] then id.state == 2
                else id.state == 3 && id.val == Texts(e.idMore))
    ensures |ReadKey(e)| < LINE_BUFFER && |ReadVal(e)| < LINE_BUFFER ==> AllFit(st, IdLines(e))
  {
    var lines, next := IdLines(e), Step(st, e.id);
    IdHasText(e.id);
    assert lines[1..] == e.idMore;
    if TextOf(e.id) == [] {
      RunContinuations(next, e.idMore);
      assert [] + Texts(e.idMore) == Texts(e.idMore);
    } else if e.idMore != [] {
      assert IsContinuation(e.idMore[0]);
      RunContinuations(Step(next, e.idMore[0]), e.idMore[1..]);
    }
  }

  lemma StepStr(st: PoState, str: seq<byte>)
    requires 1 <= st.state <= 3 && IsLine(str) && IsMsgStr(str) && (st.state == 3 ==> IsContinuation(str))
    ensures var val := if st.state == 3 then st.val + TextOf(str) else TextOf(str);
            && Holds(Step(st, str), st.key, val, st.pairs)
            && (|val| < LINE_BUFFER ==> Fits(st, str))
  {
    IdHasText(str);
    if st.state == 3 {
      StepContinuation(st, str);
    }
  }

  /** Behind a line that leaves a value, continuations add to it. */
  lemma RunMore(st: PoState, line: seq<byte>, more: seq<seq<byte>>, key: seq<byte>, val: seq<byte>, pairs: seq<Pair>)
    requires Holds(Step(st, line), key, val, pairs) && AllContinuations(more)
    ensures Holds(Run(st, [line] + more), key, val + Texts(more), pairs)
    ensures Fits(st, line) && |val| + |Texts(more)| < LINE_BUFFER ==> AllFit(st, [line] + more)
  {
    RunContinuations(Step(st, line), more);
    RunFirst(st, line, more);
  }

  lemma AddedText(before: seq<byte>, text: seq<byte>, more: seq<byte>, first: seq<byte>)
    requires first == before + text || (before == [] && first == text)
    ensures first + more == before + (text + more)
  {
  }

  /** The msgstr line and what follows it. */
  lemma RunStr(st: PoState, str: seq<byte>, more: seq<seq<byte>>)
    requires 1 <= st.state <= 3 && IsLine(str) && IsMsgStr(str) && (st.state == 3 ==> IsContinuation(str))
    requires AllContinuations(more)
    ensures var val := (if st.state == 3 then st.val else []) + (TextOf(str) + Texts(more));
            && Holds(Run(st, [str] + more), st.key, val, st.pairs)
            && (|val| < LINE_BUFFER ==> AllFit(st, [str] + more))
  {
    var before: seq<byte> := if st.state == 3 then st.val else [];
    var first := if st.state == 3 then st.val + TextOf(str) else TextOf(str);
    StepStr(st, str);
    RunMore(st, str, more, st.key, first, st.pairs);
    AddedText(before, TextOf(str), Texts(more), first);
  }

  /** The lines of any entry, from any idle state. */
  lemma RunRead(st: PoState, e: PoEntry)
    requires Idle(st) && IsEntry(e)
    ensures Holds(Run(st, EntryLines(e)), ReadKey(e), ReadVal(e), st.pairs)
    ensures |ReadKey(e)| < LINE_BUFFER && |ReadVal(e)| < LINE_BUFFER ==> AllFit(st, EntryLines(e))
  {
    RunBefore(st, e.before);
    RunId(st, e);
    RunStr(Run(st, IdLines(e)), e.str, e.strMore);
    RunConcat(st, IdLines(e), StrLines(e));
    RunConcat(st, e.before, IdLines(e) + StrLines(e));
    assert [] + ValText(e) == ValText(e);
  }

  /** A key that begins on the msgid line and goes on below it is misread: what goes on is put in front of
      the value. The entry is read as it is meant exactly if its key is in one place. */
  lemma ContinuedKeyIsMisread(st: PoState, e: PoEntry)
    requires Idle(st) && IsEntry(e)
    ensures TextOf(e.id) != [] ==>
              Holds(Run(st, EntryLines(e)), TextOf(e.id), Texts(e.idMore) + ValText(e), st.pairs)
    ensures Holds(Run(st, EntryLines(e)), KeyText(e), ValText(e), st.pairs) <==> KeyInOnePlace(e)
  {
    RunRead(st, e);
    ReadAsMeant(e);
  }

  lemma ReadAsMeant(e: PoEntry)
    ensures ReadKey(e) == KeyText(e) && ReadVal(e) == ValText(e) <==> KeyInOnePlace(e)
  {
    var first, more := TextOf(e.id), Texts(e.idMore);
    assert first == [] ==> first + more == more;
    assert more == [] ==> first + more == first && more + ValText(e) == ValText(e);
    assert more != [] ==> |first + more| > |first|;
  }

  /** An accepted entry without its end leaves the whole key and value in the buffers. */
  lemma RunEntry(st: PoState, e: PoEntry)
    requires Idle(st) && Accepted(e)
    ensures Holds(Run(st, EntryLines(e)), KeyText(e), ValText(e), st.pairs)
    ensures AllFit(st, EntryLines(e))
  {
    RunRead(st, e);
    ReadAsMeant(e);
  }

  lemma StepEnd(st: PoState, line: seq<byte>)
    requires st.state == 3 && EndsEntry(line)
    ensures Step(st, line) == Flush(st) && Fits(st, line)
  {
    NoQuote(line);
  }

  /** Idle again, with these pairs. */
  predicate IdleWith(st: PoState, pairs: seq<Pair>) {
    Idle(st) && st.pairs == pairs
  }

  lemma RunEnded(st: PoState, e: PoEntry, end: seq<byte>)
    requires Idle(st) && Accepted(e) && EndsEntry(end)
    ensures var lines := EntryLines(e) + [end];
            IdleWith(Run(st, lines), st.pairs + ExpectedOf(e)) && AllFit(st, lines)
  {
    RunEntry(st, e);
    var full := Run(st, EntryLines(e));
    StepEnd(full, end);
    RunOne(full, end);
    RunConcat(st, EntryLines(e), [end]);
    assert st.pairs + [] == st.pairs;
  }

  lemma {:induction false} RunFile(st: PoState, es: seq<PoEntry>, ends: seq<seq<byte>>)
    requires Idle(st) && |es| == |ends|
    requires forall i | 0 <= i < |es| :: Accepted(es[i]) && EndsEntry(ends[i])
    ensures IdleWith(Run(st, FileLines(es, ends)), st.pairs + Expected(es))
    ensures AllFit(st, FileLines(es, ends))
    decreases |es|
  {
    if es == [] {
      assert st.pairs + [] == st.pairs;
    } else {
      var lines, rest := EntryLines(es[0]) + [ends[0]], FileLines(es[1..], ends[1..]);
      assert Accepted(es[0]) && EndsEntry(ends[0]);
      RunEnded(st, es[0], ends[0]);
      var next := Run(st, lines);
      RunFile(next, es[1..], ends[1..]);
      RunConcat(st, lines, rest);
      PairsAssociate(st.pairs, ExpectedOf(es[0]), Expected(es[1..]));
    }
  }

  lemma PairsAssociate(a: seq<Pair>, b: seq<Pair>, c: seq<Pair>)
    ensures (a + b) + c == a + (b + c)
  {
  }

  lemma RunOne(st: PoState, line: seq<byte>)
    ensures Run(st, [line]) == Step(st, line)
    ensures AllFit(st, [line]) <==> Fits(st, line)
  {
    assert [line][1..] == [];
    assert Run(Step(st, line), []) == Step(st, line);
  }

  /** The machine collects exactly the expected pairs in order, and it stays inside its buffers. */
  lemma CollectsEntries(es: seq<PoEntry>, ends: seq<seq<byte>>)
    requires |es| == |ends|
    requires forall i | 0 <= i < |es| :: Accepted(es[i]) && EndsEntry(ends[i])
    ensures Collect(FileLines(es, ends)) == Expected(es) && AllFit(START, FileLines(es, ends))
  {
    RunFile(START, es, ends);
    assert START.pairs + Expected(es) == Expected(es);
  }

  /** The same for a file that stops behind its last entry. */
  lemma CollectsOpenEntry(es: seq<PoEntry>, ends: seq<seq<byte>>, last: PoEntry)
    requires |es| == |ends| && Accepted(last)
    requires forall i | 0 <= i < |es| :: Accepted(es[i]) && EndsEntry(ends[i])
    ensures var lines := FileLines(es, ends) + EntryLines(last);
            Collect(lines) == Expected(es + [last]) && AllFit(START, lines)
  {
    RunFile(START, es, ends);
    assert START.pairs + Expected(es) == Expected(es);
    var st := Run(START, FileLines(es, ends));
    RunEntry(st, last);
    RunConcat(START, FileLines(es, ends), EntryLines(last));
    EofFlushes(Run(st, EntryLines(last)), Expected(es), last);
    ExpectedAppend(es, last);
  }

  lemma EofFlushes(st: PoState, pairs: seq<Pair>, e: PoEntry)
    requires Holds(st, KeyText(e), ValText(e), pairs)
    ensures AtEof(st).pairs == pairs + ExpectedOf(e)
  {
    NoQuote([]);
    assert pairs + [] == pairs;
  }

  lemma {:induction false} ExpectedAppend(es: seq<PoEntry>, last: PoEntry)
    ensures Expected(es + [last]) == Expected(es) + ExpectedOf(last)
  {
    if es == [] {
      assert es + [last] == [last];
      assert Expected([last]) == ExpectedOf(last) + Expected([]);
    } else {
      assert (es + [last])[1..] == es[1..] + [last];
      ExpectedAppend(es[1..], last);
      PairsAssociate(ExpectedOf(es[0]), Expected(es[1..]), ExpectedOf(last));
    }
  }

  /** A flushed pair never has an empty side. */
  ghost predicate FullPairs(pairs: seq<Pair>) {
    forall i | 0 <= i < |pairs| :: pairs[i].0 != [] && pairs[i].1 != []
  }

  lemma {:induction false} RunFullPairs(st: PoState, lines: seq<seq<byte>>)
    requires FullPairs(st.pairs)
    ensures FullPairs(Run(st, lines).pairs)
    decreases |lines|
  {
    if lines != [] {
      RunFullPairs(Step(st, lines[0]), lines[1..]);
    }
  }

  lemma CollectFullPairs(lines: seq<seq<byte>>)
    ensures FullPairs(Collect(lines))
  {
    RunFullPairs(START, lines);
  }

  /** At the end of the file one more turn is enough: the loop leaves state 2 and above for good. */
  lemma EofTerminates(st: PoState)
    requires st.state <= 3
    ensures AtEof(st).state < 2
  {
    NoQuote([]);
  }

  // ----------------------------------------------------------------------------------------------
  // Entries that are interrupted
  // ----------------------------------------------------------------------------------------------

  /** A line without a quote inside a key ends the key but not the entry: whatever has a quote next is the
      value. */
  lemma GapInKey(st: PoState, gap: seq<byte>, next: seq<byte>)
    requires st.state == 1 && EndsEntry(gap) && Extract(next).Some?
    ensures Holds(Run(st, [gap, next]), st.key, TextOf(next), st.pairs)
  {
    NoQuote(gap);
    MsgStrHasQuote(gap);
    RunOne(Step(st, gap), next);
    RunFirst(st, gap, [next]);
    assert [gap, next] == [gap] + [next];
  }

  lemma MsgStrHasQuote(line: seq<byte>)
    requires QUOTE !in line
    ensures !IsMsgStr(line) && !IsMsgId(line)
  {
    if IsMsgStr(line) || IsMsgId(line) {
      IdHasText(line);
      NoQuote(line);
    }
  }

  /** A key without a value is forgotten with the next line that has no quote. */
  lemma KeyWithoutValue(st: PoState, gap: seq<byte>)
    requires st.state == 2 && st.val == [] && EndsEntry(gap)
    ensures IdleWith(Step(st, gap), st.pairs)
  {
    NoQuote(gap);
  }

  /** Between entries every line is passed over unless it is a msgid line. */
  lemma IdleLine(st: PoState, line: seq<byte>)
    requires Idle(st)
    ensures Step(st, line) == st <==> !IsMsgId(line)
  {
    if IsMsgId(line) {
      IdHasText(line);
    }
  }
}
