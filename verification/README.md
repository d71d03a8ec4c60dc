# Verified model of the LuCI template tools and of safe-upgrade

A Dafny 4.11 model of three parts of lime-packages, with proofs about all inputs, all runs and all
reachable states. `dafny verify dfyconfig.toml` checks the whole project.

* **The template compiler and its text filters** (`Buffer`, `Utf8`, `XmlText`, `StripTags`, `LuaString`,
  `TemplateSyntax`, `TemplateParser`, `TagMeaning`, `LuaSource`, `TemplateIntent`). The reader of
  `template_parser.c` returns one fragment of Lua source at a call and is always one chunk behind, because the
  dash of the next tag trims the text before it. It is proved to emit what a direct two-pass compiler gives,
  and every fragment is proved to denote what its piece of the template says, as Lua 5.1 reads string
  literals, alone and in the joined source. The filters are proved against reference definitions: code points
  and their RFC 3629 encodings, bytewise passes, a decoder of references.
* **The catalogue pipeline** (`Words`, `KeyHash`, `HashVectors`, `PoQuoting`, `PoReader`, `LmoFile`, `Po2Lmo`,
  `LmoLookup`, `Catalogue`). The line machine of `po2lmo.c`, the file layout, `lmo_open`, the search and
  `luastr_translate`, joined by one theorem: the entries of PO files come back as their translations.
* **The upgrade protocol** (`UpgradeProtocol`, `UpgradeOutcomes`, `UpgradeCommands`). Each `fw_setenv`,
  erasure, write and boot is one step and power may fail between any two. Safety is an invariant of every run
  that keeps the rule of use; a run without the rule is shown to end in a dead device.

Objects the programs update in place are classes (`TemplateBuffer`, `Parser`, `Compiler`, `Device`), loops
are loops with invariants, and each method is tied to a function on values about which the theorems are
stated. Loop bodies that hold several calls are methods of their own (`PcdataBranch`, `StripTurn`, `TakeByte`).

`WorkedExamples` gives small inputs with the exact bytes that come out.

How to read the statements:

* A C string with its length is a `seq<byte>`; `HoldsString` says that memory starts with a text and its NUL.
* Character classes are those of the C locale; `char` is signed where it is promoted to `int`, which matters
  only inside the hash.
* Layout and search are proved for any hash function; the theorems about `sfh_hash` ask only that the texts
  of the loaded files, and the text looked up, have different hashes (`Distinguishes`).
* Safety of the protocol is proved under one rule of use, `FromStable`: upgrade from the stable partition only.
  `UpgradeSafeIff` shows that its first change keeps the confirmed image exactly under this rule. A second rule,
  `WithScript`, is to select the other partition for testing only once it has a boot script. Safety does not need
  it; it is needed for kernel and boot arguments to agree (`KernelIsRoot`, `ScriptRuleIsNeeded`).

Where the code differs from what its documentation or comments suggest, the model follows the code:

* `safe-upgrade`'s Readme promises a stable partition that stays good; `upgrade` erases the partition that is
  not *running*, which may be the stable one (`UnguardedUpgradeBricks`).
* The continuation count of `_validate_utf8` may run one past a sequence
  (`TokenOfEncoding`, `StrayContinuationSpoilsSequence`), and four-byte sequences reach 1FFFFF (`OutputIsRfcIff`).
* Blanks before the closing dash of a tag are not skipped: the loop for them starts on the dash
  (`BlanksBeforeDashIff`).
* The text behind the last tag is right-trimmed by the dash that this tag starts with (`StaleTrimIff`,
  `CompiledIsMeantIff`).
* Code is closed by a blank and not by a line break, so a comment in a code tag goes on over the next fragments
  (`CommentTagSwallowsText`).
* A carriage return passes `luastr_escape` unchanged, and Lua takes it for the end of the line
  (`LexEscaped`).
* A key that begins on the `msgid` line and goes on below it, which the PO format allows, is misread: what goes
  on is put in front of the value (`ContinuedKeyIsMisread`).
* Without its closing quote a continuation line is followed by what an earlier one left in `tmp`
  (`UnclosedTextIff`, `LeftoverIsAdded`).
* An entry whose msgid and msgstr are the same text is left out, so a file asked later can overrule it
  (`SameTextKeptIff`).
* `lmo_open` takes a trailer that points into the last four bytes, with an index far beyond the file
  (`OpenArchive`; 2^28 entries less one where `size_t` has 32 bits, as in the model).
* If power fails between `su_version` and `bootcmd`, bootstrap takes itself for installed ever after; upgrades are
  written and never tried (`InterruptedBootstrap`).
* A key with irregular whitespace is stored under a hash that lookups never compute (`RaggedMsgIdIsLost`).

## Model

| member | source | states |
|---|---|---|
| Buffer.TemplateBuffer.constructor | packages/lime-webui/po2lmo/template_utils.c:23-50 | an empty terminated buffer of the requested size, or of 1024 bytes for a size that is not positive |
| Buffer.TemplateBuffer.Grow | packages/lime-webui/po2lmo/template_utils.c:53-73 | the size grows by the request or by 1024; contents and fill survive the move |
| Buffer.TemplateBuffer.PutChar | packages/lime-webui/po2lmo/template_utils.c:76-86 | appends one byte and keeps the terminator, whether or not the block had to grow |
| Buffer.TemplateBuffer.Append | packages/lime-webui/po2lmo/template_utils.c:89-104 | appends all bytes of the text and keeps the terminator |
| Buffer.TemplateBuffer.Destroy | packages/lime-webui/po2lmo/template_utils.c:107-119 | the memory handed out is the contents and a NUL |
| Buffer.RunCalls | packages/lime-webui/po2lmo/template_utils.c:23-119 | any sequence of calls on a buffer of any first size leaves the concatenation of everything appended as one C string |
| Utf8.Validate | packages/lime-webui/po2lmo/template_utils.c:208-278 | reads inside the given length only, appends exactly one token and advances by the length it reports |
| Utf8.SanitizeBranch | packages/lime-webui/po2lmo/template_utils.c:290-304 | one turn copies an ASCII byte or validates a sequence, and the counter and the pointer move by the same length |
| Utf8.SanitizeString | packages/lime-webui/po2lmo/template_utils.c:281-310 | returns the sanitized text as a C string; the counter and the pointer never part |
| Utf8.LegalIsScalar | packages/lime-webui/po2lmo/template_utils.c:147-203 | a sequence that passes the shortest, surrogate and illegal tests is the RFC 3629 encoding of an allowed code point |
| Utf8.ScalarIsLegal | packages/lime-webui/po2lmo/template_utils.c:123-203 | the encoding of every allowed code point passes all the byte tests and is read back as that code point |
| Utf8.TokenShape | packages/lime-webui/po2lmo/template_utils.c:214-264 | what one call emits is one ASCII byte other than NUL, or the legal sequence that stands there |
| Utf8.TokenTail | packages/lime-webui/po2lmo/template_utils.c:226-263 | behind its first byte a token swallows continuation bytes only |
| Utf8.TokenOfEncoding | packages/lime-webui/po2lmo/template_utils.c:223-264 | the encoding of any code point is kept whole and counted exactly if no continuation byte follows it (ASCII always is); otherwise it is replaced together with that byte |
| Utf8.SanitizeSound | packages/lime-webui/po2lmo/template_utils.c:281-310 | for every byte string the output is the encoding of the code points read, all of them allowed |
| Utf8.EncodingIsKept | packages/lime-webui/po2lmo/template_utils.c:281-310 | well-formed text passes unchanged and its code points are read back |
| Utf8.SanitizeFixedPoint | packages/lime-webui/po2lmo/template_utils.c:280-310 | the sanitizer changes a string exactly when it is not well-formed |
| Utf8.SanitizeIdempotent | packages/lime-webui/po2lmo/template_utils.c:280-310 | sanitizing twice is sanitizing once |
| Utf8.SanitizeNotLonger | packages/lime-webui/po2lmo/template_utils.c:281-310 | the output is never longer than the input |
| Utf8.StrayContinuationSpoilsSequence | packages/lime-webui/po2lmo/template_utils.c:226-263 | a good sequence of any length followed by a stray continuation byte becomes one question mark together with it |
| Utf8.OutputIsRfcIff | packages/lime-webui/po2lmo/template_utils.c:123-145 | the output is text of RFC 3629 exactly if no code point read lies beyond 10FFFF |
| Utf8.BeyondUnicodePasses | packages/lime-webui/po2lmo/template_utils.c:123-145 | F4 90 80 80, the first code point beyond, passes unchanged |
| Utf8.TokenOfRun | packages/lime-webui/po2lmo/template_utils.c:213-275 | what any byte makes of the bytes behind it: it takes the continuation bytes, at most one more than it announces, and all of them are one question mark unless they are an encoding |
| Utf8.BrokenSequence | packages/lime-webui/po2lmo/template_utils.c:226-263 | a sequence that breaks off, is complete but no encoding, or has one byte too many becomes one question mark, and reading goes on behind it |
| Utf8.TruncatedSequence | packages/lime-webui/po2lmo/template_utils.c:226-263 | the encoding of any code point cut short at any place becomes one question mark |
| Utf8.RejectedComplete | packages/lime-webui/po2lmo/template_utils.c:147-203 | the complete sequences that are no encodings are exactly the overlong ones, the surrogates and the two noncharacters, by their bytes |
| Utf8.LoneByte | packages/lime-webui/po2lmo/template_utils.c:265-275 | a byte that starts no sequence becomes one question mark by itself |
| XmlText.PcdataBranch | packages/lime-webui/po2lmo/template_utils.c:326-366 | one turn drops, escapes, copies or validates what stands at the pointer and advances past it |
| XmlText.PcdataString | packages/lime-webui/po2lmo/template_utils.c:315-369 | returns the escaped text as a C string |
| XmlText.TokensAgree | packages/lime-webui/po2lmo/template_utils.c:326-365 | the escaper tokenises as the sanitizer does, and emits the cleaned-up token unless it is NUL |
| XmlText.FactoredLength | packages/lime-webui/po2lmo/template_utils.c:315-369 | sanitizing, stripping and escaping in turn is longer by exactly the number of NUL bytes |
| XmlText.PcdataFactors | packages/lime-webui/po2lmo/template_utils.c:281-369 | `pcdata` is escape after strip after sanitize for exactly the inputs without NUL |
| XmlText.StripFirstDiffers | packages/lime-webui/po2lmo/template_utils.c:326-335 | stripping before sanitizing gives another result: a control byte inside a sequence |
| XmlText.PcdataSafe | packages/lime-webui/po2lmo/template_utils.c:312-369 | every output is well-formed UTF-8 without control bytes, and special bytes occur only inside the five references |
| XmlText.DecodeEscaped | packages/lime-webui/po2lmo/template_utils.c:337-350 | reading the references undoes the escaping |
| XmlText.PcdataRoundTrip | packages/lime-webui/po2lmo/template_utils.c:312-369 | reading the references of the output gives back the input for exactly the well-formed inputs without control bytes |
| XmlText.PcdataUnchangedIff | packages/lime-webui/po2lmo/template_utils.c:326-365 | text passes unchanged exactly if it is well-formed and holds neither the five special bytes nor a control byte other than tab, newline and carriage return |
| XmlText.References | packages/lime-webui/po2lmo/template_utils.c:337-350 | the five references as they are written |
| StripTags.ScanTag | packages/lime-webui/po2lmo/template_utils.c:386-397 | the nested scan finds the first closing bracket or the end |
| StripTags.StripBranch | packages/lime-webui/po2lmo/template_utils.c:381-426 | one turn emits, advances and sets `prev` as its branch says |
| StripTags.StripTurn | packages/lime-webui/po2lmo/template_utils.c:381-426 | one turn keeps that what was written and the turns to come make up the whole result, and that `prev` tells how the output ends |
| StripTags.StripTagsString | packages/lime-webui/po2lmo/template_utils.c:371-429 | the single pass returns cut, collapse and escape done one after the other; `prev` always tells whether the output ends in whitespace |
| StripTags.TurnsAreThreePasses | packages/lime-webui/po2lmo/template_utils.c:381-426 | the branches of the loop do the work of the three passes from any point on |
| StripTags.StrippedShape | packages/lime-webui/po2lmo/template_utils.c:371-429 | no leading whitespace, no two whitespace bytes in a row, special bytes only inside references, for every input |
| StripTags.StrippedKeepsWords | packages/lime-webui/po2lmo/template_utils.c:371-429 | read back, the output has exactly the words outside the tags, in order |
| StripTags.CutTagsAt | packages/lime-webui/po2lmo/template_utils.c:383-397 | text without brackets stays and a closed tag behind it becomes one space |
| StripTags.UnclosedTag | packages/lime-webui/po2lmo/template_utils.c:383-397 | a tag that is never closed loses its bracket only |
| StripTags.BracketKept | packages/lime-webui/po2lmo/template_utils.c:383-384 | a bracket with neither slash nor letter behind it is kept |
| StripTags.LateBracketKept | packages/lime-webui/po2lmo/template_utils.c:383-384 | so is one with fewer than two bytes behind it |
| StripTags.NothingCutIff | packages/lime-webui/po2lmo/template_utils.c:381-399 | cutting changes a text exactly if somewhere a bracket stands in front of a slash or a letter and one byte more |
| StripTags.PlainTextKept | packages/lime-webui/po2lmo/template_utils.c:371-429 | text in which no tag opens is read back whole, but for collapsed whitespace |
| Words.CollapseAppend | packages/lime-webui/po2lmo/template_utils.c:400-408 | of every run of whitespace the first byte is kept as it is |
| LuaString.AppendEscaped | packages/lime-webui/po2lmo/template_utils.c:431-472 | appends the escaped text to the buffer |
| LuaString.PutLuaByte | packages/lime-webui/po2lmo/template_utils.c:440-470 | appends the escape of one byte, falling through to the plain byte when XML escaping is off |
| LuaString.LexEscaped | packages/lime-webui/po2lmo/template_utils.c:431-472 | Lua reads back exactly the text, or its XML-escaped form, and stops at the generator's quote, for exactly the texts without carriage return |
| LuaString.EscapeInvertible | packages/lime-webui/po2lmo/template_utils.c:431-472 | Lua-unescaping, and for XML escaping then decoding the references, gives the text back |
| LuaString.EscapedHasNoNewline | packages/lime-webui/po2lmo/template_utils.c:453-455 | no raw newline is ever written |
| LuaString.LuaEscapes | packages/lime-webui/po2lmo/template_utils.c:443-464 | the escapes as they are written |
| LuaString.EscapeLuaUnchangedIff | packages/lime-webui/po2lmo/template_utils.c:431-472 | text is written as it stands exactly if it holds no backslash, quote or newline and, with XML escaping, none of the other four special bytes |
| TemplateSyntax.SplitLosesNothing | packages/lime-webui/po2lmo/template_parser.c:339-372 | the pieces of a template put together again are the template |
| TemplateSyntax.SplitTextInverse | packages/lime-webui/po2lmo/template_parser.c:339-372 | every proper list of pieces is the splitting of its text, so a template can be read in one way only |
| TemplateSyntax.FindFirstMatches | packages/lime-webui/po2lmo/template_parser.c:38-64 | nothing before the place found matches the needle |
| TemplateSyntax.FragmentDenotes | packages/lime-webui/po2lmo/template_parser.c:25-35 | a fragment denotes what its piece says exactly if no carriage return gets into a literal |
| TemplateSyntax.CompiledDenotes | packages/lime-webui/po2lmo/template_parser.c:239-322 | behind the initial blank the generated statements are, piece by piece and in order, what a closed template says |
| TagMeaning.TagMeans | packages/lime-webui/po2lmo/template_parser.c:184-235 | for any tag, by its bytes: dashes and the blanks behind the first one go, the first byte decides between comment, include, translation, raw translation, expression and code, and the fragment is that source |
| TagMeaning.PlainTagMeans | packages/lime-webui/po2lmo/template_parser.c:205-235 | the whole compiled form of a template that is one tag without dashes |
| TagMeaning.OneTagMeans | packages/lime-webui/po2lmo/template_parser.c:184-235 | the same with dashes |
| TagMeaning.TextMeans | packages/lime-webui/po2lmo/template_parser.c:153-175 | for any text, by its bytes: the whitespace at an end goes exactly if the deciding tag has its dash there, and the rest is written as it is |
| TagMeaning.SpaceMeans | packages/lime-webui/po2lmo/template_parser.c:153-175 | text that is whitespace only goes with a dash at either side |
| TagMeaning.OpenTemplateMeans | packages/lime-webui/po2lmo/template_parser.c:339-372 | with an open tag the escape character stands in place of the tag and the text before it |
| TagMeaning.Literals | packages/lime-webui/po2lmo/template_parser.c:25-35 | the table of leading and trailing code and the delimiters, as text |
| LuaSource.SourceDenotes | packages/lime-webui/po2lmo/template_parser.c:25-35 | without code and expressions the fragments, read by Lua as one text, are exactly the statements of the pieces in order, and none at all if a carriage return gets into a literal |
| LuaSource.TemplateSource | packages/lime-webui/po2lmo/template_parser.c:239-375 | the same for the whole source of a closed template |
| LuaSource.CommentTagSwallowsText | packages/lime-webui/po2lmo/template_parser.c:33-33 | a code tag that ends in a comment makes Lua skip the text behind it, since code is closed by a blank |
| TemplateIntent.StaleTrimIff | packages/lime-webui/po2lmo/template_parser.c:250-254 | a text is trimmed as the dash of the next tag says, except exactly for the text behind a last tag that starts with a dash, if that text ends in whitespace |
| TemplateIntent.CompiledIsMeantIff | packages/lime-webui/po2lmo/template_parser.c:239-322 | the compiled form is the one with the meant trimming exactly if that last text is not of this kind |
| TemplateIntent.StaleTrimExample | packages/lime-webui/po2lmo/template_parser.c:250-254 | a template whose last text loses its space |
| TemplateIntent.BlanksBeforeDashIff | packages/lime-webui/po2lmo/template_parser.c:190-194 | the inside of a tag is the meant one exactly if no blank stands before its closing dash |
| TemplateIntent.BlanksBeforeDashExample | packages/lime-webui/po2lmo/template_parser.c:190-194 | a tag that keeps such a blank |
| TemplateParser.StrFind | packages/lime-webui/po2lmo/template_parser.c:38-64 | finds the first place of the needle, or none |
| TemplateParser.Parser.constructor | packages/lime-webui/po2lmo/template_parser.c:103-131 | the stream of the new parser is the compiled template |
| TemplateParser.Parser.TemplateText | packages/lime-webui/po2lmo/template_parser.c:153-175 | the chunk is the text, without leading whitespace if the last tag ends in a dash, or the end of the input |
| TemplateParser.Parser.SkipDashes | packages/lime-webui/po2lmo/template_parser.c:179-194 | sets the two flags by the dashes and finds the inside of the tag |
| TemplateParser.Parser.TemplateCode | packages/lime-webui/po2lmo/template_parser.c:177-237 | the chunk is the tag's kind and payload, and the flags are those of the tag |
| TemplateParser.Parser.TrimPrevious | packages/lime-webui/po2lmo/template_parser.c:250-254 | a text chunk loses its trailing whitespace if the flag is set; other chunks stay |
| TemplateParser.Parser.EmitBody | packages/lime-webui/po2lmo/template_parser.c:277-306 | appends the body for the kind and counts the newlines of Lua code |
| TemplateParser.Parser.FormatChunk | packages/lime-webui/po2lmo/template_parser.c:239-322 | returns the fragment of the previous chunk, trimmed by the flag of this moment, and nothing at the end of the input |
| TemplateParser.Parser.ReadChunk | packages/lime-webui/po2lmo/template_parser.c:339-372 | exactly one piece is taken from the rest, or none inside a tag that is never closed |
| TemplateParser.Parser.Reader | packages/lime-webui/po2lmo/template_parser.c:324-375 | a call returns the first fragment of the stream and leaves the others; in an open tag it returns the escape character again and again |
| TemplateParser.PendingFrom | packages/lime-webui/po2lmo/template_parser.c:239-375 | with any piece read, the delayed compiler emits from there on what the direct one does: one chunk of lookahead is enough for trimming |
| TemplateParser.StreamIsCompiled | packages/lime-webui/po2lmo/template_parser.c:239-375 | from the first state on the stream of the reader is the compiled template |
| TemplateParser.Drain | packages/lime-webui/po2lmo/template_parser.c:324-375 | calling the reader to the end, or to the escape character, gives the whole stream |
| TemplateParser.CompileTemplate | packages/lime-webui/po2lmo/template_parser.c:103-375 | the fragments of any template without a lone-dash tag, closed or not, are those of the direct two-pass compiler |
| TemplateParser.LoneDashCrosses | packages/lime-webui/po2lmo/template_parser.c:184-194 | the end of a tag comes before its start for the lone-dash tag and for no other |
| Words.CanonTextIsJoin | packages/lime-webui/po2lmo/template_lmo.c:81-95 | the canonical form is the words joined by single spaces |
| Words.CanonTextIdempotent | packages/lime-webui/po2lmo/template_lmo.c:81-95 | the canonical form is its own canonical form and has the same words |
| Words.SameCanonText | packages/lime-webui/po2lmo/template_lmo.c:81-95 | two texts have the same canonical form exactly when they have the same words |
| Words.CanonicalIffSinglySpaced | packages/lime-webui/po2lmo/template_lmo.c:81-95 | a text is canonical exactly if its whitespace is single inner spaces |
| KeyHash.SfhHash | packages/lime-webui/po2lmo/template_lmo.c:26-70 | the pointer loop with its end cases computes the hash function of the model |
| HashVectors.HashOfOne | packages/lime-webui/po2lmo/template_lmo.c:54-58 | the hash of a known text with one byte left over |
| HashVectors.HashOfTwo | packages/lime-webui/po2lmo/template_lmo.c:50-53 | the hash of a known text with two bytes left over |
| HashVectors.HashOfThree | packages/lime-webui/po2lmo/template_lmo.c:45-49 | the hash of a known text with three bytes left over |
| HashVectors.HashOfFour | packages/lime-webui/po2lmo/template_lmo.c:36-42 | the hash of a known text of one block |
| HashVectors.HashOfHighByte | packages/lime-webui/po2lmo/template_lmo.c:54-58 | a byte above 7F is sign-extended |
| HashVectors.HashOfThreeHigh | packages/lime-webui/po2lmo/template_lmo.c:45-49 | also in the end case for three bytes |
| HashVectors.HashOfNine | packages/lime-webui/po2lmo/template_lmo.c:26-70 | the hash of a known text of two blocks and one byte |
| KeyHash.CanonHashBound | packages/lime-webui/po2lmo/template_lmo.c:72-98 | keys of 4096 bytes and more hash to 0 |
| KeyHash.CopyWords | packages/lime-webui/po2lmo/template_lmo.c:81-95 | the buffer holds the canonical form of the key |
| KeyHash.CanonHashOf | packages/lime-webui/po2lmo/template_lmo.c:72-98 | a key that fits hashes as its canonical form, a longer one to 0 |
| KeyHash.SameWordsSameHash | packages/lime-webui/po2lmo/template_lmo.c:72-98 | keys with the same words hash alike |
| KeyHash.CanonicalKeyHash | packages/lime-webui/po2lmo/template_lmo.c:72-98 | on canonical keys the reader's hash is the raw hash the writer stores |
| PoQuoting.ExtractQuoted | packages/lime-webui/po2lmo/po2lmo.c:39-83 | the text read from a line that holds a quoted text is that text, whatever stands around the quotes |
| PoQuoting.OtherEscapeKept | packages/lime-webui/po2lmo/po2lmo.c:59-74 | an escape of any other byte is kept with its backslash |
| PoQuoting.TakeByte | packages/lime-webui/po2lmo/po2lmo.c:51-79 | one byte behind the quote keeps the written part and the pending backslash in step with the text to come |
| PoQuoting.ExtractString | packages/lime-webui/po2lmo/po2lmo.c:39-83 | without a quote -1 and no change; otherwise the destination holds the unquoted text, its terminator if the quote is closed, and old memory behind it |
| PoReader.CollectsEntries | packages/lime-webui/po2lmo/po2lmo.c:143-229 | for any list of accepted entries, given by lines with whatever escapes, the machine collects exactly the pairs with two non-empty sides, in order, inside its buffers |
| PoReader.CollectsOpenEntry | packages/lime-webui/po2lmo/po2lmo.c:143-229 | the same when the file stops behind the last entry |
| PoReader.RunEntry | packages/lime-webui/po2lmo/po2lmo.c:145-193 | the lines of an accepted entry leave its whole key and value in the buffers |
| PoReader.CollectFullPairs | packages/lime-webui/po2lmo/po2lmo.c:195-198 | no collected pair has an empty side, for any lines |
| PoReader.EofTerminates | packages/lime-webui/po2lmo/po2lmo.c:143-143 | at the end of the file one more turn leaves the states in which the loop goes on |
| PoReader.ContinuedKeyIsMisread | packages/lime-webui/po2lmo/po2lmo.c:145-193 | for any entry and any idle state: a key that begins on the msgid line and goes on below loses what goes on to the front of the value; the entry is read as meant exactly if its key is in one place |
| PoReader.PrintedIsEntry | packages/lime-webui/po2lmo/po2lmo.c:145-193 | quoting texts, with backslashes before quotes and backslashes, gives an entry that says them |
| PoReader.HeaderLineText | packages/lime-webui/po2lmo/po2lmo.c:57-79 | a line with the escape of a newline, as in the header of a PO file, is a continuation, and the escape is kept with its backslash |
| PoReader.RunContinuations | packages/lime-webui/po2lmo/po2lmo.c:168-193 | continuation lines add their texts to the key or to the value, whatever `tmp` held before |
| PoReader.UnclosedTextIff | packages/lime-webui/po2lmo/po2lmo.c:168-193 | a continuation line adds its own text exactly if it has its closing quote or an old terminator stands right behind the text in `tmp` |
| PoReader.LeftoverIsAdded | packages/lime-webui/po2lmo/po2lmo.c:168-193 | an unclosed line behind a longer closed one adds its text and the end of the other text once more |
| PoReader.UnclosedLineRepeats | packages/lime-webui/po2lmo/po2lmo.c:168-193 | two such lines and the key they give |
| PoReader.GapInKey | packages/lime-webui/po2lmo/po2lmo.c:158-176 | a line without a quote inside a key ends the key, and the next quoted line of any kind is the value |
| PoReader.KeyWithoutValue | packages/lime-webui/po2lmo/po2lmo.c:160-168 | a key without a value is forgotten |
| PoReader.IdleLine | packages/lime-webui/po2lmo/po2lmo.c:145-157 | between entries exactly the msgid lines are not passed over |
| LmoFile.WordRoundTrip | packages/lime-webui/po2lmo/po2lmo.c:98-102 | a word written in network order is read back |
| LmoFile.PutWordIsBigEndian | packages/lime-webui/po2lmo/po2lmo.c:98-102 | a word is written in network order, highest byte first |
| LmoFile.PutWordOrder | packages/lime-webui/po2lmo/po2lmo.c:98-102 | of two words the smaller one has the smaller byte where they first differ |
| LmoFile.GetWordIsBigEndian | packages/lime-webui/po2lmo/template_lmo.c:126-127 | a word is read in network order |
| LmoFile.IndexInside | packages/lime-webui/po2lmo/po2lmo.c:104-117 | the entries stand one after the other where the index is written |
| LmoFile.StoredSlice | packages/lime-webui/po2lmo/template_lmo.c:295-296 | the bytes at an entry's offset and length are the value, in the data and in any longer file |
| LmoFile.EntriesArePairs | packages/lime-webui/po2lmo/po2lmo.c:195-221 | every entry has the hashes of one of the pairs and a 4-aligned zero-padded copy of its value |
| LmoFile.PairsHaveEntries | packages/lime-webui/po2lmo/po2lmo.c:195-221 | every pair whose two hashes differ has its entry |
| LmoFile.LayoutDisjoint | packages/lime-webui/po2lmo/po2lmo.c:211-219 | values, padding included, never overlap and keep their order |
| LmoFile.FileNumbers | packages/lime-webui/po2lmo/po2lmo.c:104-117 | behind the values every entry stands as its four numbers, key, value, offset and length, each in network order |
| LmoFile.TrailerIsSize | packages/lime-webui/po2lmo/po2lmo.c:233-238 | the last four bytes of a kept file are the size of the values in network order, each stored value taking the next multiple of four |
| LmoFile.OpenArchive | packages/lime-webui/po2lmo/template_lmo.c:100-152 | whatever values and index make up the file, the archive has the index behind the values and their number; none exactly for an empty file or a trailer beyond the end; the index is inside the file exactly if the trailer does not point into itself |
| LmoFile.OpenWritten | packages/lime-webui/po2lmo/template_lmo.c:126-134 | opening a written file finds the index where it was put and exactly the number of entries written |
| LmoFile.ReadWritten | packages/lime-webui/po2lmo/template_lmo.c:132-133 | every entry of the opened file is the one written |
| Po2Lmo.Qsort | packages/lime-webui/po2lmo/po2lmo.c:85-108 | the entries in ascending order of their keys, none lost or added |
| Po2Lmo.PrintIndex | packages/lime-webui/po2lmo/po2lmo.c:104-117 | some sorting of the entries is written behind the values |
| Po2Lmo.Compiler.ExtractFresh | packages/lime-webui/po2lmo/po2lmo.c:147-156 | a text read into a zero-filled buffer leaves zeros behind it |
| Po2Lmo.Compiler.StrCat | packages/lime-webui/po2lmo/po2lmo.c:178-179 | the text in `tmp` is appended and the rest of the buffer stays zero |
| Po2Lmo.Compiler.FlushEntry | packages/lime-webui/po2lmo/po2lmo.c:195-226 | a pair with two sides is recorded, both buffers are empty, and file and entries are the layout of the pairs |
| Po2Lmo.Compiler.StorePair | packages/lime-webui/po2lmo/po2lmo.c:202-220 | unless both hashes are equal the padded value is written and its entry added |
| Po2Lmo.Compiler.ProcessLine | packages/lime-webui/po2lmo/po2lmo.c:145-226 | the branches on the buffers do one step of the line machine |
| Po2Lmo.Compile | packages/lime-webui/po2lmo/po2lmo.c:119-247 | the kept file is the values of the collected pairs, a sorting of their entries and the trailer, which is the size of the values in network order; no file is kept if no value was written; the loop ends |
| LmoLookup.FindEntry | packages/lime-webui/po2lmo/template_lmo.c:244-278 | on unsigned words, with the unused wrapped midpoint, the loop finds what the search on integers finds, for every non-empty index inside its file |
| LmoLookup.FindIff | packages/lime-webui/po2lmo/template_lmo.c:244-278 | on a sorted index an entry with the hash is found exactly when there is one |
| LmoLookup.LookupFirst | packages/lime-webui/po2lmo/template_lmo.c:291-299 | of several archives the first one that knows the hash answers |
| LmoLookup.Translate | packages/lime-webui/po2lmo/template_lmo.c:280-302 | the value in the first archive that has the hash of the key, none without a catalogue or an entry |
| LmoLookup.AppendTranslated | packages/lime-webui/po2lmo/template_utils.c:474-484 | appends the escape of the translation, or of the text itself if there is none |
| Catalogue.DataMeansEntries | packages/lime-webui/po2lmo/po2lmo.c:233-243 | a kept file has at least one entry, and there is one exactly if some pair's hashes differ |
| Catalogue.WrittenServes | packages/lime-webui/po2lmo/template_lmo.c:126-134 | the opened archive is valid and sorted, and its entries and the stored pairs name each other |
| Catalogue.LookupServed | packages/lime-webui/po2lmo/template_lmo.c:244-302 | for any hash a lookup gives the value of a stored pair whose key has it, and nothing exactly when no stored key has it |
| Catalogue.LookupCompiled | packages/lime-webui/po2lmo/template_lmo.c:195-216 | with any number of compiled files loaded, and for any hash, the first file asked that stores a key with it answers with a value it stores, and none exactly when no file stores one |
| Catalogue.TranslatedIs | packages/lime-webui/po2lmo/template_lmo.c:280-302 | looking up any text: a value the first file asked that translates its canonical form gives it, none exactly when no file translates it; a text too long for the buffer is looked up as the hash 0 |
| Catalogue.MsgIdIsTranslated | packages/lime-webui/po2lmo/po2lmo.c:199-221 | in any number of files, a canonical msgid no other file decides about is translated to its msgstr, also when the entry was left out because both hash alike |
| Catalogue.SameTextKeptIff | packages/lime-webui/po2lmo/po2lmo.c:202-202 | a canonical msgid stays as it is exactly if no file translates it: an entry that says so is left out and does not hold back a file asked later |
| Catalogue.RaggedMsgIdIsLost | packages/lime-webui/po2lmo/template_lmo.c:289-302 | a text that is not canonical has no translation, msgid or not, exactly if no file translates its canonical form |
| Catalogue.LoadCatalog | packages/lime-webui/po2lmo/template_lmo.c:195-216 | the archives that open, the file read last in front |
| Catalogue.CompileCatalog | packages/lime-webui/po2lmo/po2lmo.c:119-247 | every PO file whose lines fit the buffers is compiled and loaded |
| Catalogue.CompileAndTranslate | packages/lime-webui/po2lmo/po2lmo.c:119-247 | from the lines of any PO files through compiling, opening and translating to the escape of a collected msgstr in the output buffer |
| Catalogue.TranslateEntry | packages/lime-webui/po2lmo/po2lmo.c:143-229 | the same for a file given by its entries, with or without a line behind the last one |
| Catalogue.MessageTagDenotes | packages/lime-webui/po2lmo/template_parser.c:293-299 | a message tag denotes writing the msgstr, XML-escaped unless raw, exactly if the msgstr has no carriage return |
| WorkedExamples.CutEuroSign | packages/lime-webui/po2lmo/template_utils.c:281-310 | a cut Euro sign and the result |
| WorkedExamples.IncludeHeader | packages/lime-webui/po2lmo/template_parser.c:324-375 | an include tag and its source |
| WorkedExamples.NeverClosed | packages/lime-webui/po2lmo/template_parser.c:339-372 | an open tag and its source |
| UpgradeProtocol.InitialInv | packages/safe-upgrade/files/usr/sbin/safe-upgrade:264-292 | a device before bootstrap is in a good state |
| UpgradeProtocol.BootstrapHarmless | packages/safe-upgrade/files/usr/sbin/safe-upgrade:264-292 | every change of bootstrap keeps the invariant, the boot command coming last |
| UpgradeProtocol.UpgradeHarmless | packages/safe-upgrade/files/usr/sbin/safe-upgrade:309-353 | every change of an upgrade started from the stable partition keeps it |
| UpgradeProtocol.ConfirmHarmless | packages/safe-upgrade/files/usr/sbin/safe-upgrade:355-369 | every change of a confirmation keeps it: the timeout file is gone before the partition becomes stable |
| UpgradeProtocol.StepKeepsInv | packages/safe-upgrade/bootscript_gen.py:2-21 | every step, power loss and automatic reboot at any moment included, keeps the invariant under the upgrade rule alone |
| UpgradeProtocol.RunKeepsInv | packages/safe-upgrade/files/usr/sbin/safe-upgrade:264-376 | so does every run |
| UpgradeProtocol.ConfirmedImageIsKept | packages/safe-upgrade/files/usr/sbin/safe-upgrade:309-369 | in every reachable state the stable partition holds the image confirmed last, and it boots |
| UpgradeProtocol.TwoPowerUpsRecover | packages/safe-upgrade/bootscript_gen.py:2-21 | from every reachable state the second power-up runs the stable partition, and the first one does unless a test is due |
| UpgradeProtocol.FirstPowerUp | packages/safe-upgrade/bootscript_gen.py:2-21 | exactly what runs behind the next power-up, by flash, testing and stable partition: the partition under test if it boots, otherwise the first partition, otherwise nothing |
| UpgradeProtocol.StandsStillIff | packages/safe-upgrade/bootscript_gen.py:11-21 | a power-up ends with nothing running exactly if the first partition is under test, does not boot and is not the stable one |
| UpgradeProtocol.TestBootsArePaid | packages/safe-upgrade/bootscript_gen.py:4-10 | boots into a partition that is not the stable one are no more than the times testing was set |
| UpgradeProtocol.StableNeverReboots | packages/safe-upgrade/files/usr/sbin/safe-upgrade:57-83 | the stable partition never carries the timeout file, so it never reboots by itself |
| UpgradeProtocol.UpgradeSafeIff | packages/safe-upgrade/files/usr/sbin/safe-upgrade:309-328 | the first change of an upgrade leaves the confirmed image alone exactly if it was started from the stable partition |
| UpgradeProtocol.UnguardedUpgradeBricks | packages/safe-upgrade/files/usr/sbin/safe-upgrade:309-353 | a run without the rule after which no number of power-ups brings the device back |
| UpgradeProtocol.TestWithoutScriptMixes | packages/safe-upgrade/files/usr/sbin/safe-upgrade:371-376 | a bootable partition under test runs with its own boot arguments exactly if it has a boot script, from either partition; without one its kernel gets the arguments of the first |
| UpgradeProtocol.KernelIsRoot | packages/safe-upgrade/files/usr/sbin/safe-upgrade:371-376 | under both rules the kernel runs with the arguments of its own partition in every reachable state |
| UpgradeProtocol.ScriptRuleIsNeeded | packages/safe-upgrade/files/usr/sbin/safe-upgrade:371-376 | a run under the upgrade rule alone that ends with the other arguments, for every device with two bootable images |
| UpgradeOutcomes.UpgradeIsTriedOnce | packages/safe-upgrade/files/usr/sbin/safe-upgrade:309-353 | with or without a reboot of its own, the new image runs at the next power-up exactly if it boots, and the one behind it is back on the stable partition |
| UpgradeOutcomes.FailedUpgrade | packages/safe-upgrade/bootscript_gen.py:11-21 | an image that does not boot: from the second partition the device stands still until power is cut, from the first one it falls back at once |
| UpgradeOutcomes.UpgradeArms | packages/safe-upgrade/files/usr/sbin/safe-upgrade:309-335 | the new image reboots by itself exactly if that was not disabled |
| UpgradeOutcomes.CommandActsIff | packages/safe-upgrade/files/usr/sbin/safe-upgrade:264-376 | when each command changes something, and when it aborts |
| UpgradeOutcomes.ConfirmTakesOver | packages/safe-upgrade/files/usr/sbin/safe-upgrade:355-369 | confirming makes the running partition the one power-ups end with, without automatic reboot |
| UpgradeOutcomes.InterruptedBootstrap | packages/safe-upgrade/files/usr/sbin/safe-upgrade:264-292 | if power fails behind the n-th of the seven changes of bootstrap, the boot command can still be installed exactly if n is not six |
| UpgradeOutcomes.HalfInstalledForGood | packages/safe-upgrade/files/usr/sbin/safe-upgrade:264-292 | once the version is set without the boot command, no run ever sets it, and only the first partition is ever started |
| UpgradeOutcomes.TrailIsSafe | packages/safe-upgrade/files/usr/sbin/safe-upgrade:264-376 | in every state a command passes through power may fail and the device recovers |
| UpgradeCommands.Device.SetEnv | packages/safe-upgrade/files/usr/sbin/safe-upgrade:98-102 | sets one variable of the environment as one change |
| UpgradeCommands.Device.MtdErase | packages/safe-upgrade/files/usr/sbin/safe-upgrade:327-328 | the partition and its file system are gone |
| UpgradeCommands.Device.MtdWrite | packages/safe-upgrade/files/usr/sbin/safe-upgrade:333-335 | the partition holds the image, the start link and, unless disabled, the timeout file |
| UpgradeCommands.Device.AutoRebootStop | packages/safe-upgrade/files/usr/sbin/safe-upgrade:79-83 | the timeout file goes before the waiting process |
| UpgradeCommands.Device.Bootstrap | packages/safe-upgrade/files/usr/sbin/safe-upgrade:264-292 | passes through exactly the states of the bootstrap script, or exits without a change |
| UpgradeCommands.Device.Upgrade | packages/safe-upgrade/files/usr/sbin/safe-upgrade:309-353 | passes through exactly the states of the upgrade script, or exits without a change |
| UpgradeCommands.Device.Confirm | packages/safe-upgrade/files/usr/sbin/safe-upgrade:355-369 | passes through exactly the states of the confirm script, or exits without a change |
| UpgradeCommands.Device.TestOtherPartition | packages/safe-upgrade/files/usr/sbin/safe-upgrade:371-376 | passes through exactly the states of the script that selects the other partition, or exits without a change |
| UpgradeCommands.Device.BootLoader | packages/safe-upgrade/bootscript_gen.py:2-21 | from power-up to a running kernel or none, as the protocol's boot step says |
| UpgradeCommands.Device.StartKernel | packages/safe-upgrade/bootscript_gen.py:11-21 | the boot attempts in order, with the address kept and the boot arguments set last |

## Left out

- Buffer.TemplateBuffer.Append: does not model the wrap-around of the unsigned size and fill, nor a failing allocation; sizes are unbounded and memory is always there.
- Po2Lmo.Compile: asks that texts fit the 4096-byte buffers, that of `tmp` only bytes are read that some line wrote, and that the file stays below 2^31 bytes.
- Po2Lmo.Compiler.ProcessLine: asks the same of one line; otherwise the program writes behind its buffers or reads memory it never wrote.
- PoReader.CollectsEntries: asks for an end line without a quote and for entries in the order msgid, msgstr; a line with a quote behind a value is read as its continuation, and plural forms are not known to the program.
- TemplateParser.CompileTemplate: leaves out templates with the tag that is a lone dash, for which the program copies a negative number of bytes; the byte behind the template is taken to be NUL.
- LmoLookup.Translate: asks for archives with a non-empty index inside the file, which is what the compiler writes; for others the program reads outside the mapping.
- LmoFile.OpenArchive: says nothing of files of one to three bytes, where the program reads before the mapping.
- KeyHash.SfhHash: nothing is proved about how well the hash distributes; it is a function of the text, with known values in `HashVectors`.
- Po2Lmo.Qsort: the library function is replaced by an insertion sort of which only sortedness and the entries are used.
- UpgradeCommands.Device.MtdWrite: takes the write as one change at its end; a partition that is being written counts as not bootable, and one `fw_setenv` or `saveenv` as atomic.
- TemplateParser.Parser.FormatChunk: the `line` of a chunk and `template_error`, which reports it, are not part of the statements beyond the count of newlines.
- Files, mappings, directory scanning and the linked list of catalogues are byte sequences and sequences of archives.
- LuaSource.TemplateSource: covers the joined source of templates without code and expressions only; with them it depends on Lua syntax, and a comment or an unfinished statement can take in what follows (`CommentTagSwallowsText`).
- The Lua bindings of `template_lualib.c` and Lua syntax inside code and expression tags; their payload is opaque.
- In `safe-upgrade` the firmware check (its outcome is a parameter), the preserved archive, argument parsing and the length of the timeout; two commands at the same time.
- The factory boot script and its boot arguments, which the repository does not hold: it is taken to boot the first partition.
- `onelinerize` in `bootscript_gen.py`; the script it prints is modelled.
