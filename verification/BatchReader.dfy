/** The reader of `git cat-file --batch` output (`scripts/benchmark-npm-resolution.ts`). */
module BatchReader {
  import opened Wrappers
  import opened Decimals

  const LF: byte := 10
  const SPACE: byte := 32
  const PLUS: byte := 43
  const MINUS: byte := 45
  /** The ASCII bytes of " missing". */
  const MISSING: Bytes := [32, 109, 105, 115, 115, 105, 110, 103]
  const MAX_SAFE_INTEGER: nat := 9007199254740991

  datatype Path = Path(name: string)

  /** What a header line may say instead of a size. */
  datatype HeaderFailure = NotInRef | InvalidSize

  datatype Failure = NoHeader(path: Path) | BadHeader(path: Path, why: HeaderFailure) | Truncated(path: Path)

  // ---------- headers ----------

  predicate EndsWith(s: Bytes, suffix: Bytes) {
    |s| >= |suffix| && s[|s| - |suffix|..] == suffix
  }

  /** What follows the first space, if there is one. */
  function AfterSpace(s: Bytes): Option<Bytes> {
    if s == [] then None else if s[0] == SPACE then Some(s[1..]) else AfterSpace(s[1..])
  }

  function UpToSpace(s: Bytes): Bytes {
    if s == [] || s[0] == SPACE then [] else [s[0]] + UpToSpace(s[1..])
  }

  /** The third space-separated field, or nothing. */
  function ThirdField(header: Bytes): Bytes {
    var second := AfterSpace(header);
    if second.None? then []
    else
      var third := AfterSpace(second.value);
      if third.None? then [] else UpToSpace(third.value)
  }

  predicate IsBlank(b: byte) {
    9 <= b <= 13 || b == SPACE
  }

  function SkipBlanks(s: Bytes): Bytes {
    if s != [] && IsBlank(s[0]) then SkipBlanks(s[1..]) else s
  }

  /** Decimal parsing that skips blanks, takes one sign and ignores what follows the digits. */
  function ParseInt(s: Bytes): Option<int> {
    var trimmed := SkipBlanks(s);
    var negative := trimmed != [] && trimmed[0] == MINUS;
    var digits := if trimmed != [] && (trimmed[0] == MINUS || trimmed[0] == PLUS) then trimmed[1..] else trimmed;
    var k := LeadingDigits(digits);
    if k == 0 then None
    else
      var magnitude: int := Value(digits[..k]);
      Some(if negative then -magnitude else magnitude)
  }

  /** The size a header announces, unless it is no size or not a safe integer. */
  function SizeOf(header: Bytes): Option<nat> {
    var size := ParseInt(ThirdField(header));
    if size.None? || size.value < 0 || size.value > MAX_SAFE_INTEGER then None else Some(size.value)
  }

  /** The size of the object a header line announces, unless it reports a missing object. */
  function SizeIn(header: Bytes): Result<nat, HeaderFailure> {
    if EndsWith(header, MISSING) then Err(NotInRef)
    else
      var size := SizeOf(header);
      if size.None? then Err(InvalidSize) else Ok(size.value)
  }

  // ---------- what a header announces ----------

  /** Tab, line feed, vertical tab, form feed, carriage return or space. */
  predicate Blanks(s: Bytes) {
    forall i | 0 <= i < |s| :: s[i] == 9 || s[i] == 10 || s[i] == 11 || s[i] == 12 || s[i] == 13 || s[i] == 32
  }

  /** The field is blanks, the sign, the digits of `n`, and something that begins with no digit. */
  ghost predicate Spells(field: Bytes, sign: Bytes, n: nat) {
    exists blanks, digits, tail :: Blanks(blanks) && IsNumeral(digits, n) && StartsOtherwise(tail) &&
                                   field == blanks + (sign + (digits + tail))
  }

  ghost predicate IsNumeral(digits: Bytes, n: nat) {
    digits != [] && AllDigits(digits) && Value(digits) == n
  }

  ghost predicate StartsOtherwise(tail: Bytes) {
    tail != [] ==> !(48 <= tail[0] <= 57)
  }

  /** The field is a number: unsigned, or with a plus or a minus. */
  ghost predicate IsNumber(field: Bytes, value: int) {
    (value >= 0 && (Spells(field, [], value) || Spells(field, [43], value))) ||
    (value <= 0 && Spells(field, [45], -value))
  }

  lemma {:induction false} SkipBlanksOf(blanks: Bytes, rest: Bytes)
    requires Blanks(blanks) && (rest != [] ==> !IsBlank(rest[0]))
    ensures SkipBlanks(blanks + rest) == rest
  {
    if blanks == [] {
      assert blanks + rest == rest;
    } else {
      SkipBlanksOf(blanks[1..], rest);
      assert (blanks + rest)[1..] == blanks[1..] + rest;
    }
  }

  lemma {:induction false} BlanksSkipped(s: Bytes) returns (blanks: Bytes)
    ensures Blanks(blanks) && s == blanks + SkipBlanks(s)
  {
    blanks := [];
    if s != [] && IsBlank(s[0]) {
      var more := BlanksSkipped(s[1..]);
      blanks := [s[0]] + more;
      assert s == [s[0]] + s[1..];
    }
  }

  lemma SpelledIsParsed(field: Bytes, sign: Bytes, n: nat)
    requires Spells(field, sign, n) && (sign == [] || sign == [PLUS] || sign == [MINUS])
    ensures ParseInt(field).Some? && ParseInt(field).value == if sign == [MINUS] then -(n as int) else n
  {
    var blanks, digits, tail :| Blanks(blanks) && IsNumeral(digits, n) && StartsOtherwise(tail) &&
      field == blanks + (sign + (digits + tail));
    assert IsDigit(digits[0]);
    var trimmed := sign + (digits + tail);
    assert trimmed[0] == if sign == [] then digits[0] else sign[0];
    SkipBlanksOf(blanks, trimmed);
    assert sign != [] ==> trimmed[1..] == digits + tail;
    assert sign == [] ==> trimmed == digits + tail;
    LeadingDigitsOf(digits, tail);
    assert (digits + tail)[..|digits|] == digits;
  }

  lemma DigitsSpell(blanks: Bytes, sign: Bytes, rest: Bytes)
    requires Blanks(blanks) && LeadingDigits(rest) > 0
    ensures Spells(blanks + (sign + rest), sign, Value(rest[..LeadingDigits(rest)]))
  {
    hide LeadingDigits, Value, Blanks;
    var k := LeadingDigits(rest);
    var digits, tail := rest[..k], rest[k..];
    assert rest == digits + tail;
    assert tail != [] ==> tail[0] == rest[k];
    assert IsNumeral(digits, Value(digits)) && StartsOtherwise(tail);
  }

  lemma ParsedIsSpelled(field: Bytes, value: int)
    requires ParseInt(field) == Some(value)
    ensures IsNumber(field, value)
  {
    hide LeadingDigits, Value, Blanks, SkipBlanks, Spells;
    var blanks := BlanksSkipped(field);
    var trimmed := SkipBlanks(field);
    if trimmed[0] == MINUS || trimmed[0] == PLUS {
      assert trimmed == [trimmed[0]] + trimmed[1..];
      DigitsSpell(blanks, [trimmed[0]], trimmed[1..]);
    } else {
      assert trimmed == [] + trimmed;
      DigitsSpell(blanks, [], trimmed);
    }
  }

  /** The third space-separated field of the header. */
  ghost predicate HasField(header: Bytes, field: Bytes) {
    exists first, second, rest :: SPACE !in first && SPACE !in second && SPACE !in field &&
      (rest == [] || rest[0] == SPACE) &&
      header == first + ([SPACE] + (second + ([SPACE] + (field + rest))))
  }

  lemma {:induction false} WordBeforeSpace(s: Bytes) returns (word: Bytes)
    requires AfterSpace(s).Some?
    ensures SPACE !in word && s == word + ([SPACE] + AfterSpace(s).value)
  {
    if s[0] == SPACE {
      word := [];
      assert s == [SPACE] + s[1..];
    } else {
      var more := WordBeforeSpace(s[1..]);
      word := [s[0]] + more;
      assert s == [s[0]] + s[1..];
    }
  }

  lemma {:induction false} UpToSpaceOf(word: Bytes, rest: Bytes)
    requires SPACE !in word && (rest == [] || rest[0] == SPACE)
    ensures UpToSpace(word + rest) == word
  {
    if word == [] {
      assert word + rest == rest;
    } else {
      UpToSpaceOf(word[1..], rest);
      assert (word + rest)[1..] == word[1..] + rest;
    }
  }

  lemma {:induction false} UpToSpaceFacts(s: Bytes)
    ensures SPACE !in UpToSpace(s) && UpToSpace(s) <= s
    ensures |UpToSpace(s)| < |s| ==> s[|UpToSpace(s)|] == SPACE
  {
    if s != [] && s[0] != SPACE { UpToSpaceFacts(s[1..]); }
  }

  lemma FieldIsThird(header: Bytes, field: Bytes)
    requires HasField(header, field)
    ensures ThirdField(header) == field
  {
    var first, second, rest :| SPACE !in first && SPACE !in second && SPACE !in field &&
      (rest == [] || rest[0] == SPACE) &&
      header == first + ([SPACE] + (second + ([SPACE] + (field + rest))));
    AfterWord(first, second + ([SPACE] + (field + rest)));
    AfterWord(second, field + rest);
    UpToSpaceOf(field, rest);
  }

  lemma FieldAt(first: Bytes, second: Bytes, field: Bytes, rest: Bytes)
    requires SPACE !in first && SPACE !in second && SPACE !in field && (rest == [] || rest[0] == SPACE)
    ensures HasField(first + ([SPACE] + (second + ([SPACE] + (field + rest)))), field)
  {
  }

  lemma ThirdIsField(header: Bytes)
    requires ThirdField(header) != []
    ensures HasField(header, ThirdField(header))
  {
    hide AfterSpace, UpToSpace, HasField;
    var first := WordBeforeSpace(header);
    var after := AfterSpace(header).value;
    var second := WordBeforeSpace(after);
    var third := AfterSpace(after).value;
    var field := UpToSpace(third);
    UpToSpaceFacts(third);
    assert third == field + third[|field|..];
    FieldAt(first, second, field, third[|field|..]);
  }

  /** The header ends in a space and the word "missing". */
  ghost predicate ReportsMissing(header: Bytes) {
    exists stem :: header == stem + [32, 109, 105, 115, 115, 105, 110, 103]
  }

  /**
   * A header announces a size exactly when it does not end in " missing" and its third field is a number that is a
   * safe integer and not negative; it reports a missing object exactly when it ends so.
   */
  lemma HeaderReadExactly(header: Bytes, size: nat)
    ensures SizeIn(header) == Ok(size) <==>
              !ReportsMissing(header) && size <= 0x1F_FFFF_FFFF_FFFF &&
              exists field :: HasField(header, field) && IsNumber(field, size)
    ensures SizeIn(header) == Err(NotInRef) <==> ReportsMissing(header)
  {
    if EndsWith(header, MISSING) { assert header == header[..|header| - |MISSING|] + MISSING; }
    if stem :| header == stem + MISSING { assert header[|header| - |MISSING|..] == MISSING; }
    if field :| HasField(header, field) && IsNumber(field, size) {
      FieldIsThird(header, field);
      NumberIsParsed(field, size);
    }
    if ParseInt(ThirdField(header)) == Some(size) {
      ParsedIsSpelled(ThirdField(header), size);
      if ThirdField(header) != [] { ThirdIsField(header); }
    }
  }

  lemma NumberIsParsed(field: Bytes, value: int)
    requires IsNumber(field, value)
    ensures ParseInt(field) == Some(value)
  {
    if value >= 0 && Spells(field, [], value) {
      SpelledIsParsed(field, [], value);
    } else if value >= 0 && Spells(field, [43], value) {
      SpelledIsParsed(field, [PLUS], value);
    } else {
      SpelledIsParsed(field, [MINUS], -value);
    }
  }

  // ---------- frames ----------

  /** How a header line announces the length of a content. */
  type Announce = Bytes -> Result<nat, HeaderFailure>

  datatype Frame = Frame(header: Bytes, content: Bytes)

  predicate OneLine(s: Bytes) {
    forall i | 0 <= i < |s| :: s[i] != LF
  }

  /** A header line that announces the length of the content. */
  predicate WellFormed(announce: Announce, f: Frame) {
    OneLine(f.header) && announce(f.header) == Ok(|f.content|)
  }

  ghost predicate At(output: Bytes, i: nat, s: Bytes) {
    i + |s| <= |output| && output[i..i + |s|] == s
  }

  ghost predicate NewlineAt(output: Bytes, i: nat) {
    i < |output| && output[i] == LF
  }

  /** `output` continues at `offset` with the frame: header, newline, content, newline. */
  ghost predicate FrameAt(announce: Announce, output: Bytes, offset: nat, f: Frame) {
    WellFormed(announce, f) &&
    At(output, offset, f.header) && NewlineAt(output, offset + |f.header|) &&
    At(output, offset + |f.header| + 1, f.content) && NewlineAt(output, offset + |f.header| + 1 + |f.content|)
  }

  /** A frame begins at `offset`. */
  ghost predicate FrameBegins(announce: Announce, output: Bytes, offset: nat) {
    exists f :: FrameAt(announce, output, offset, f)
  }

  /** The frame boundary after a frame that begins at `offset`. */
  ghost function After(offset: nat, f: Frame): nat {
    offset + |f.header| + |f.content| + 2
  }

  ghost function AfterAll(offset: nat, frames: seq<Frame>): nat
    decreases |frames|
  {
    if frames == [] then offset else AfterAll(After(offset, frames[0]), frames[1..])
  }

  /** From `offset`, `output` continues with the frames, one right after the other. */
  ghost predicate Framed(announce: Announce, output: Bytes, offset: nat, frames: seq<Frame>)
    decreases |frames|
  {
    frames == [] || (FrameAt(announce, output, offset, frames[0]) &&
      Framed(announce, output, After(offset, frames[0]), frames[1..]))
  }

  /** The contents by path; a path asked for twice has its later content. */
  function Contents(paths: seq<Path>, frames: seq<Frame>): map<Path, Bytes>
    requires |paths| == |frames|
  {
    if paths == [] then map[]
    else
      var n := |paths| - 1;
      Contents(paths[..n], frames[..n])[paths[n] := frames[n].content]
  }

  // ---------- the output determines its frames ----------

  /** The first newline from `offset` on, or -1. */
  ghost predicate FirstNewline(output: Bytes, offset: nat, headerEnd: int) {
    if headerEnd < 0 then forall k | offset <= k < |output| :: output[k] != LF
    else offset <= headerEnd && NewlineAt(output, headerEnd) && forall k | offset <= k < headerEnd :: output[k] != LF
  }

  /** What can be read off the output where a frame begins. */
  ghost predicate Announced(announce: Announce, output: Bytes, offset: nat, headerEnd: int, f: Frame) {
    headerEnd == offset + |f.header| < |output| && output[offset..headerEnd] == f.header &&
    announce(output[offset..headerEnd]) == Ok(|f.content|) &&
    At(output, headerEnd + 1, f.content) && NewlineAt(output, headerEnd + 1 + |f.content|)
  }

  lemma FrameMeans(announce: Announce, output: Bytes, offset: nat, headerEnd: int, f: Frame)
    requires FrameAt(announce, output, offset, f) && FirstNewline(output, offset, headerEnd)
    ensures Announced(announce, output, offset, headerEnd, f)
  {
  }

  lemma FrameIsUnique(announce: Announce, output: Bytes, offset: nat, f: Frame, g: Frame)
    requires FrameAt(announce, output, offset, f) && FrameAt(announce, output, offset, g)
    ensures f == g
  {
  }

  lemma {:induction false} FramesAreUnique(announce: Announce, output: Bytes, offset: nat, frames: seq<Frame>,
                                           others: seq<Frame>)
    requires Framed(announce, output, offset, frames) && Framed(announce, output, offset, others) &&
             |frames| == |others|
    ensures frames == others
    decreases |frames|
  {
    if frames != [] {
      FrameIsUnique(announce, output, offset, frames[0], others[0]);
      FramesAreUnique(announce, output, After(offset, frames[0]), frames[1..], others[1..]);
      assert frames == [frames[0]] + frames[1..] && others == [others[0]] + others[1..];
    }
  }

  lemma {:induction false} FramedAppend(announce: Announce, output: Bytes, offset: nat, frames: seq<Frame>,
                                        more: seq<Frame>)
    ensures AfterAll(offset, frames + more) == AfterAll(AfterAll(offset, frames), more)
    ensures Framed(announce, output, offset, frames + more) <==>
              Framed(announce, output, offset, frames) && Framed(announce, output, AfterAll(offset, frames), more)
    decreases |frames|
  {
    if frames == [] {
      assert frames + more == more;
    } else {
      FramedAppend(announce, output, After(offset, frames[0]), frames[1..], more);
      assert (frames + more)[1..] == frames[1..] + more;
    }
  }

  lemma FramedOne(announce: Announce, output: Bytes, offset: nat, f: Frame)
    ensures Framed(announce, output, offset, [f]) <==> FrameAt(announce, output, offset, f)
    ensures AfterAll(offset, [f]) == After(offset, f)
  {
  }

  /** No list of frames goes on where no frame begins. */
  lemma StuckHere(announce: Announce, output: Bytes, frames: seq<Frame>, others: seq<Frame>)
    requires Framed(announce, output, 0, frames) && |others| > |frames|
    requires !FrameBegins(announce, output, AfterAll(0, frames))
    ensures !Framed(announce, output, 0, others)
  {
    if Framed(announce, output, 0, others) {
      var i := |frames|;
      assert others == others[..i] + others[i..];
      FramedAppend(announce, output, 0, others[..i], others[i..]);
      FramesAreUnique(announce, output, 0, frames, others[..i]);
    }
  }

  // ---------- the reader ----------

  method IndexOfNewline(output: Bytes, offset: nat) returns (index: int)
    ensures FirstNewline(output, offset, index)
  {
    index := offset;
    while index < |output|
      invariant offset <= index
      invariant forall k | offset <= k < index && k < |output| :: output[k] != LF
    {
      if output[index] == LF { return; }
      index := index + 1;
    }
    return -1;
  }

  /** The checks the reader makes on the line that ends at `headerEnd`. */
  ghost predicate Readable(announce: Announce, output: Bytes, offset: nat, headerEnd: int) {
    offset <= headerEnd < |output| && announce(output[offset..headerEnd]).Ok? &&
    NewlineAt(output, headerEnd + 1 + announce(output[offset..headerEnd]).value)
  }

  ghost function FrameHere(announce: Announce, output: Bytes, offset: nat, headerEnd: int): Frame
    requires Readable(announce, output, offset, headerEnd)
  {
    var header := output[offset..headerEnd];
    Frame(header, output[headerEnd + 1..headerEnd + 1 + announce(header).value])
  }

  lemma ReadableIsFrame(announce: Announce, output: Bytes, offset: nat, headerEnd: int)
    requires FirstNewline(output, offset, headerEnd)
    ensures FrameBegins(announce, output, offset) <==> Readable(announce, output, offset, headerEnd)
    ensures Readable(announce, output, offset, headerEnd) ==>
              FrameAt(announce, output, offset, FrameHere(announce, output, offset, headerEnd))
  {
    if Readable(announce, output, offset, headerEnd) {
      var header := output[offset..headerEnd];
      assert OneLine(header) by { assert forall i | 0 <= i < |header| :: header[i] == output[offset + i]; }
      assert FrameAt(announce, output, offset, FrameHere(announce, output, offset, headerEnd));
    }
    forall f | FrameAt(announce, output, offset, f) ensures Readable(announce, output, offset, headerEnd) {
      FrameMeans(announce, output, offset, headerEnd, f);
    }
  }

  /** Reading one frame succeeds exactly when the output continues with one, and ends right after it. */
  method ReadFrame(announce: Announce, output: Bytes, offset: nat, path: Path)
    returns (r: Result<(Bytes, nat), Failure>, ghost frame: Frame)
    ensures r.Ok? <==> FrameBegins(announce, output, offset)
    ensures r.Ok? ==> FrameAt(announce, output, offset, frame) && r.value == (frame.content, After(offset, frame))
    ensures r.Err? ==> r.error.path == path
  {
    frame := Frame([], []);
    var headerEnd := IndexOfNewline(output, offset);
    ReadableIsFrame(announce, output, offset, headerEnd);
    if headerEnd < 0 { return Err(NoHeader(path)), frame; }
    var size := announce(output[offset..headerEnd]);
    if size.Err? { return Err(BadHeader(path, size.error)), frame; }
    var contentStart := headerEnd + 1;
    var contentEnd := contentStart + size.value;
    if contentEnd >= |output| || output[contentEnd] != LF { return Err(Truncated(path)), frame; }
    frame := FrameHere(announce, output, offset, headerEnd);
    return Ok((output[contentStart..contentEnd], contentEnd + 1)), frame;
  }

  /** What the reader returns, when it returns: the contents of one frame for every path from the start. */
  ghost predicate Reads(paths: seq<Path>, output: Bytes, contents: map<Path, Bytes>) {
    exists frames :: |frames| == |paths| && Framed(SizeIn, output, 0, frames) && contents == Contents(paths, frames)
  }

  lemma ContentsAppend(paths: seq<Path>, i: nat, frames: seq<Frame>, f: Frame)
    requires i < |paths| && |frames| == i
    ensures Contents(paths[..i + 1], frames + [f]) == Contents(paths[..i], frames)[paths[i] := f.content]
  {
    assert paths[..i + 1][..i] == paths[..i] && (frames + [f])[..i] == frames;
  }

  /**
   * Reading returns contents exactly when the output begins with one well-formed frame for every path, whatever
   * the contents hold and whatever follows. A failure names the first path for which no frame begins.
   */
  method ReadGitFiles(paths: seq<Path>, output: Bytes) returns (r: Result<map<Path, Bytes>, Failure>)
    ensures forall contents :: Reads(paths, output, contents) <==> r == Ok(contents)
    ensures r.Err? ==> exists k, frames: seq<Frame> ::
              0 <= k < |paths| && |frames| == k && Framed(SizeIn, output, 0, frames) && r.error.path == paths[k] &&
              !FrameBegins(SizeIn, output, AfterAll(0, frames))
  {
    var contents: map<Path, Bytes> := map[];
    var offset := 0;
    ghost var frames: seq<Frame> := [];
    for i := 0 to |paths|
      invariant |frames| == i && Framed(SizeIn, output, 0, frames)
      invariant offset == AfterAll(0, frames)
      invariant contents == Contents(paths[..i], frames)
    {
      var read, frame := ReadFrame(SizeIn, output, offset, paths[i]);
      if read.Err? {
        forall gs | |gs| == |paths| ensures !Framed(SizeIn, output, 0, gs) { StuckHere(SizeIn, output, frames, gs); }
        return Err(read.error);
      }
      FramedAppend(SizeIn, output, 0, frames, [frame]);
      FramedOne(SizeIn, output, offset, frame);
      ContentsAppend(paths, i, frames, frame);
      contents := contents[paths[i] := read.value.0];
      offset := read.value.1;
      frames := frames + [frame];
    }
    assert paths[..|paths|] == paths;
    forall gs | |gs| == |paths| && Framed(SizeIn, output, 0, gs) ensures gs == frames {
      FramesAreUnique(SizeIn, output, 0, frames, gs);
    }
    return Ok(contents);
  }

  // ---------- the batch format ----------

  /** The header git writes for an object. */
  function Header(oid: Bytes, kind: Bytes, size: nat): Bytes {
    oid + ([SPACE] + (kind + ([SPACE] + Decimal(size))))
  }

  predicate Word(s: Bytes) {
    SPACE !in s && OneLine(s)
  }

  lemma {:induction false} AfterWord(word: Bytes, rest: Bytes)
    requires SPACE !in word
    ensures AfterSpace(word + ([SPACE] + rest)) == Some(rest)
  {
    var s := word + ([SPACE] + rest);
    if word == [] {
      assert s == [SPACE] + rest;
    } else {
      AfterWord(word[1..], rest);
      assert s[1..] == word[1..] + ([SPACE] + rest);
    }
  }

  lemma {:induction false} UpToSpaceOfWord(word: Bytes)
    requires SPACE !in word
    ensures UpToSpace(word) == word
  {
    if word != [] { UpToSpaceOfWord(word[1..]); }
  }

  lemma ParseIntOfDecimal(n: nat)
    ensures ParseInt(Decimal(n)) == Some(n)
  {
    var s := Decimal(n);
    assert IsDigit(s[0]);
    LeadingDigitsOf(s, []);
    assert s + [] == s && s[..|s|] == s;
    ValueOfDecimal(n);
  }

  lemma HeaderField(oid: Bytes, kind: Bytes, size: nat)
    requires Word(oid) && Word(kind)
    ensures ThirdField(Header(oid, kind, size)) == Decimal(size)
  {
    var digits := Decimal(size);
    AfterWord(oid, kind + ([SPACE] + digits));
    AfterWord(kind, digits);
    UpToSpaceOfWord(digits);
  }

  lemma DigitsNotMissing(s: Bytes, digits: Bytes)
    requires digits != [] && AllDigits(digits)
    ensures !EndsWith(s + digits, MISSING)
  {
    var whole := s + digits;
    assert whole[|whole| - 1] == digits[|digits| - 1];
    assert |whole| >= |MISSING| ==> whole[|whole| - 1] == whole[|whole| - |MISSING|..][|MISSING| - 1];
  }

  lemma HeaderAnnouncesSize(oid: Bytes, kind: Bytes, size: nat)
    requires Word(oid) && Word(kind) && size <= MAX_SAFE_INTEGER
    ensures SizeIn(Header(oid, kind, size)) == Ok(size)
    ensures OneLine(Header(oid, kind, size))
  {
    HeaderField(oid, kind, size);
    ParseIntOfDecimal(size);
    var before, digits := oid + ([SPACE] + (kind + [SPACE])), Decimal(size);
    assert Header(oid, kind, size) == before + digits;
    DigitsNotMissing(before, digits);
  }

  datatype Blob = Blob(oid: Bytes, kind: Bytes, content: Bytes)

  function FrameOf(b: Blob): Frame {
    Frame(Header(b.oid, b.kind, |b.content|), b.content)
  }

  function FrameBytes(f: Frame): Bytes {
    f.header + [LF] + f.content + [LF]
  }

  function Batch(blobs: seq<Blob>): Bytes {
    if blobs == [] then [] else FrameBytes(FrameOf(blobs[0])) + Batch(blobs[1..])
  }

  function FramesOf(blobs: seq<Blob>): (frames: seq<Frame>)
    ensures |frames| == |blobs|
  {
    if blobs == [] then [] else [FrameOf(blobs[0])] + FramesOf(blobs[1..])
  }

  ghost predicate Writable(blobs: seq<Blob>) {
    forall i | 0 <= i < |blobs| :: Word(blobs[i].oid) && Word(blobs[i].kind) && |blobs[i].content| <= MAX_SAFE_INTEGER
  }

  lemma AtSplit(output: Bytes, i: nat, s: Bytes, t: Bytes)
    ensures At(output, i, s + t) <==> At(output, i, s) && At(output, i + |s|, t)
  {
    if At(output, i, s + t) {
      assert output[i..i + |s|] == (s + t)[..|s|];
      assert output[i + |s|..i + |s| + |t|] == (s + t)[|s|..];
    }
    if At(output, i, s) && At(output, i + |s|, t) {
      assert output[i..i + |s| + |t|] == output[i..i + |s|] + output[i + |s|..i + |s| + |t|];
    }
  }

  lemma NewlineFrom(output: Bytes, i: nat)
    requires At(output, i, [LF])
    ensures NewlineAt(output, i)
  {
  }

  lemma FrameBytesAt(announce: Announce, output: Bytes, offset: nat, f: Frame)
    requires WellFormed(announce, f) && At(output, offset, FrameBytes(f))
    ensures FrameAt(announce, output, offset, f)
  {
    AtSplit(output, offset, f.header + [LF] + f.content, [LF]);
    AtSplit(output, offset, f.header + [LF], f.content);
    AtSplit(output, offset, f.header, [LF]);
    NewlineFrom(output, offset + |f.header|);
    NewlineFrom(output, offset + |f.header| + 1 + |f.content|);
  }

  /** A written batch is read as exactly its blobs, wherever it stands. */
  lemma {:induction false} BatchIsFramed(output: Bytes, offset: nat, blobs: seq<Blob>)
    requires Writable(blobs) && At(output, offset, Batch(blobs))
    ensures Framed(SizeIn, output, offset, FramesOf(blobs))
    ensures AfterAll(offset, FramesOf(blobs)) == offset + |Batch(blobs)|
    decreases |blobs|
  {
    if blobs != [] {
      var b, tail := blobs[0], blobs[1..];
      var f := FrameOf(b);
      AtSplit(output, offset, FrameBytes(f), Batch(tail));
      HeaderAnnouncesSize(b.oid, b.kind, |b.content|);
      FrameBytesAt(SizeIn, output, offset, f);
      assert offset + |FrameBytes(f)| == After(offset, f);
      BatchIsFramed(output, After(offset, f), tail);
      assert FramesOf(blobs)[0] == f && FramesOf(blobs)[1..] == FramesOf(tail);
    }
  }

  /** The reader inverts the batch format: contents may hold newlines or text that looks like a header. */
  lemma ReadsBatch(paths: seq<Path>, blobs: seq<Blob>, output: Bytes, contents: map<Path, Bytes>)
    requires Writable(blobs) && |paths| == |blobs| && Batch(blobs) <= output
    ensures Reads(paths, output, contents) <==> contents == Contents(paths, FramesOf(blobs))
  {
    BatchIsFramed(output, 0, blobs);
    forall gs | |gs| == |paths| && Framed(SizeIn, output, 0, gs) ensures gs == FramesOf(blobs) {
      FramesAreUnique(SizeIn, output, 0, FramesOf(blobs), gs);
    }
  }

  lemma MissingIsNoFrame(output: Bytes, offset: nat, name: Bytes)
    requires OneLine(name) && At(output, offset, name + MISSING + [LF])
    ensures !FrameBegins(SizeIn, output, offset)
  {
    var line := name + MISSING;
    AtSplit(output, offset, line, [LF]);
    var headerEnd := offset + |line|;
    assert output[headerEnd] == output[headerEnd..headerEnd + 1][0];
    assert forall k | offset <= k < headerEnd :: output[k] == line[k - offset];
    assert FirstNewline(output, offset, headerEnd);
    assert line[|name|..] == MISSING;
    ReadableIsFrame(SizeIn, output, offset, headerEnd);
  }

  /** After the blobs of a batch the output goes on with a line for a missing object. */
  lemma MissingAfterBatch(blobs: seq<Blob>, name: Bytes, output: Bytes)
    requires Batch(blobs) + (name + MISSING + [LF]) <= output
    ensures At(output, 0, Batch(blobs)) && At(output, |Batch(blobs)|, name + MISSING + [LF])
  {
    hide Batch;
    AtSplit(output, 0, Batch(blobs), name + MISSING + [LF]);
  }

  lemma StuckAfter(paths: seq<Path>, output: Bytes, frames: seq<Frame>, contents: map<Path, Bytes>)
    requires Framed(SizeIn, output, 0, frames) && |frames| < |paths| &&
             !FrameBegins(SizeIn, output, AfterAll(0, frames))
    ensures !Reads(paths, output, contents)
  {
    hide Framed, AfterAll, FrameBegins, Contents;
    forall gs | |gs| == |paths| ensures !Framed(SizeIn, output, 0, gs) { StuckHere(SizeIn, output, frames, gs); }
  }

  /** An object missing from the ref makes the whole read fail, whatever was read before or follows. */
  lemma MissingObjectFails(paths: seq<Path>, blobs: seq<Blob>, name: Bytes, output: Bytes, contents: map<Path, Bytes>)
    requires Writable(blobs) && |blobs| < |paths| && OneLine(name)
    requires Batch(blobs) + (name + MISSING + [LF]) <= output
    ensures !Reads(paths, output, contents)
  {
    hide Batch, Framed, AfterAll, FrameBegins, FramesOf, Reads;
    MissingAfterBatch(blobs, name, output);
    BatchIsFramed(output, 0, blobs);
    MissingIsNoFrame(output, |Batch(blobs)|, name);
    StuckAfter(paths, output, FramesOf(blobs), contents);
  }
}
