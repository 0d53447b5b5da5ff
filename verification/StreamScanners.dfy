// Incremental consumers of a child's output: the newline scanner behind every chat
// transport, the session-id scanner and the bounded tail sink of a headless run.
module StreamScanners {
  import opened Common
  import opened Text

  // ---------------------------------------------------------------- lines of a stream

  /** indexOf('\n'); the length when there is none. */
  function NewlineAt(s: string): (i: nat)
    ensures i <= |s|
    ensures i < |s| ==> s[i] == '\n'
  {
    if s == [] || s[0] == '\n' then 0 else 1 + NewlineAt(s[1..])
  }

  lemma {:induction false} NewlineIsFirst(s: string)
    ensures '\n' !in s[..NewlineAt(s)]
  {
    if s != [] && s[0] != '\n' {
      NewlineIsFirst(s[1..]);
      assert s[..NewlineAt(s)] == [s[0]] + s[1..][..NewlineAt(s[1..])];
    }
  }

  /** The newline-terminated lines of s. */
  function Lines(s: string): seq<string>
    decreases |s|
  {
    var i := NewlineAt(s);
    if i == |s| then [] else [s[..i]] + Lines(s[i + 1..])
  }

  /** What follows the last newline. */
  function Rest(s: string): string
    decreases |s|
  {
    var i := NewlineAt(s);
    if i == |s| then s else Rest(s[i + 1..])
  }

  /** A line as it is handled: trimmed, and dropped when blank. */
  function CleanLine(line: string): seq<string> {
    if Trim(line) == "" then [] else [Trim(line)]
  }

  function Clean(lines: seq<string>): seq<string> {
    if lines == [] then [] else CleanLine(lines[0]) + Clean(lines[1..])
  }

  function Handled(s: string): seq<string> {
    Clean(Lines(s))
  }

  /** Lines, each with its newline, and then an unterminated rest. */
  function Stream(lines: seq<string>, rest: string): string {
    if lines == [] then rest else lines[0] + ("\n" + Stream(lines[1..], rest))
  }

  predicate NoNewlines(lines: seq<string>) {
    forall i :: 0 <= i < |lines| ==> '\n' !in lines[i]
  }

  /** Every stream is its lines and its rest, none of which holds a newline. */
  lemma {:induction false} LinesAreTheStream(s: string)
    ensures Stream(Lines(s), Rest(s)) == s
    ensures NoNewlines(Lines(s)) && '\n' !in Rest(s)
    decreases |s|
  {
    hide NewlineAt;
    var nl := NewlineAt(s);
    NewlineIsFirst(s);
    if nl < |s| {
      LinesAreTheStream(s[nl + 1..]);
      assert s == s[..nl] + ("\n" + s[nl + 1..]);
      assert Lines(s)[1..] == Lines(s[nl + 1..]);
    } else {
      assert s[..nl] == s;
    }
  }

  lemma FirstLineOf(line: string, more: string)
    requires '\n' !in line
    ensures NewlineAt(line + ("\n" + more)) == |line|
  {
    var s := line + ("\n" + more);
    var nl := NewlineAt(s);
    NewlineIsFirst(s);
    hide NewlineAt;
    assert s[|line|] == '\n';
    assert forall j :: 0 <= j < |line| ==> s[j] == line[j];
  }

  /** And only those: lines written one by one are read back as those lines. */
  lemma {:induction false} LinesOfStream(lines: seq<string>, rest: string)
    requires NoNewlines(lines) && '\n' !in rest
    ensures Lines(Stream(lines, rest)) == lines && Rest(Stream(lines, rest)) == rest
  {
    hide NewlineAt;
    if lines == [] {
      NewlineIsFirst(rest);
    } else {
      var more := Stream(lines[1..], rest);
      LinesOfStream(lines[1..], rest);
      FirstLineOf(lines[0], more);
      var s := lines[0] + ("\n" + more);
      assert s[..|lines[0]|] == lines[0] && s[|lines[0]| + 1..] == more;
    }
  }

  predicate NotEmpty(line: string) {
    line != ""
  }

  function Trims(lines: seq<string>): (r: seq<string>)
    ensures |r| == |lines| && forall i :: 0 <= i < |lines| ==> r[i] == Trim(lines[i])
  {
    seq(|lines|, i requires 0 <= i < |lines| => Trim(lines[i]))
  }

  /** Of the lines of a stream those that are not blank are handled, trimmed and in order. */
  lemma {:induction false} HandledExactly(lines: seq<string>)
    ensures Clean(lines) == Filter(NotEmpty, Trims(lines))
  {
    hide Trim, Filter;
    if lines == [] {
      NothingFiltered(NotEmpty);
    } else {
      HandledExactly(lines[1..]);
      assert Trims(lines) == [Trim(lines[0])] + Trims(lines[1..]);
      FilterOfConcat(NotEmpty, [Trim(lines[0])], Trims(lines[1..]));
      FilterOfOne(NotEmpty, Trim(lines[0]));
    }
  }

  /** Every line, the unterminated last one included, is at most cap long. */
  predicate Fits(s: string, cap: nat) {
    && (forall line :: line in Lines(s) ==> |line| <= cap)
    && |Rest(s)| <= cap
  }

  lemma {:induction false} NewlineOfConcat(a: string, b: string)
    ensures NewlineAt(a) < |a| ==> NewlineAt(a + b) == NewlineAt(a)
    ensures NewlineAt(a) == |a| ==> NewlineAt(a + b) == |a| + NewlineAt(b)
  {
    if a == [] {
      assert a + b == b;
    } else if a[0] != '\n' {
      NewlineOfConcat(a[1..], b);
      assert (a + b)[1..] == a[1..] + b;
    }
  }

  lemma FirstOfLines(s: string)
    requires NewlineAt(s) < |s|
    ensures var i := NewlineAt(s);
            Lines(s) == [s[..i]] + Lines(s[i + 1..])
  {
    hide NewlineAt, Rest;
  }

  lemma RestPastLine(s: string)
    requires NewlineAt(s) < |s|
    ensures Rest(s) == Rest(s[NewlineAt(s) + 1..])
  {
    hide NewlineAt, Lines;
    var i := NewlineAt(s);
    assert i != |s|;
  }

  /** Scanning can stop after any prefix and go on from its unterminated rest. */
  lemma {:induction false} ScanResumes(a: string, b: string)
    ensures Lines(a + b) == Lines(a) + Lines(Rest(a) + b)
    ensures Rest(a + b) == Rest(Rest(a) + b)
    decreases |a|
  {
    hide Lines, Rest, NewlineAt;
    var i := NewlineAt(a);
    if i < |a| {
      NewlineOfConcat(a, b);
      var tail := a[i + 1..];
      assert (a + b)[i + 1..] == tail + b;
      assert (a + b)[..i] == a[..i];
      FirstOfLines(a);
      FirstOfLines(a + b);
      RestPastLine(a);
      RestPastLine(a + b);
      ScanResumes(tail, b);
      ConcatAssociates([a[..i]], Lines(tail), Lines(Rest(tail) + b));
    } else {
      NoMoreLines(a);
    }
  }

  lemma {:induction false} CleanOfConcat(a: seq<string>, b: seq<string>)
    ensures Clean(a + b) == Clean(a) + Clean(b)
  {
    hide CleanLine;
    if a == [] {
      assert a + b == b;
    } else {
      CleanOfConcat(a[1..], b);
      assert (a + b)[0] == a[0] && (a + b)[1..] == a[1..] + b;
      ConcatAssociates(CleanLine(a[0]), Clean(a[1..]), Clean(b));
    }
  }

  /** The rest of a prefix is the front of a line of the whole. */
  lemma FitsPrefix(a: string, b: string, cap: nat)
    requires Fits(a + b, cap)
    ensures Fits(a, cap)
  {
    ScanResumes(a, b);
    var r := Rest(a);
    NewlineAbsentInRest(a);
    NewlineOfConcat(r, b);
    var i := NewlineAt(r + b);
    if i < |r + b| {
      assert (r + b)[..i] in Lines(r + b);
      assert Lines(r + b)[0] in Lines(a + b);
    }
    forall line | line in Lines(a)
      ensures |line| <= cap
    {
      assert line in Lines(a + b);
    }
  }

  lemma {:induction false} NewlineAbsentInRest(a: string)
    ensures NewlineAt(Rest(a)) == |Rest(a)|
    decreases |a|
  {
    if NewlineAt(a) < |a| {
      NewlineAbsentInRest(a[NewlineAt(a) + 1..]);
    }
  }

  lemma CleanOne(line: string)
    ensures Clean([line]) == CleanLine(line)
  {
    hide Trim;
    assert [line][1..] == [] && Clean([]) == [];
  }

  /** Taking one line off the front. */
  lemma TakeLine(s: string)
    requires NewlineAt(s) < |s|
    ensures var i := NewlineAt(s);
            && Handled(s) == CleanLine(s[..i]) + Handled(s[i + 1..])
            && Rest(s) == Rest(s[i + 1..])
  {
    hide CleanLine, Clean, NewlineAt;
    var i := NewlineAt(s);
    var line, tail := s[..i], s[i + 1..];
    assert Lines(s) == [line] + Lines(tail) && Rest(s) == Rest(tail);
    hide Lines, Rest;
    CleanOne(line);
    CleanOfConcat([line], Lines(tail));
  }

  lemma NoMoreLines(s: string)
    requires NewlineAt(s) == |s|
    ensures Lines(s) == [] && Handled(s) == [] && Rest(s) == s
  {
  }

  // ---------------------------------------------------------------- the chat scanner

  datatype Scan = Scan(handled: seq<string>, buf: string)

  /** One data event: complete lines are handled, an over-long leftover is discarded. */
  function Push(s: Scan, chunk: string, cap: nat): Scan {
    var text := s.buf + chunk;
    Scan(s.handled + Handled(text), if |Rest(text)| > cap then "" else Rest(text))
  }

  function PushAll(chunks: seq<string>, cap: nat): Scan {
    if chunks == [] then Scan([], "") else Push(PushAll(chunks[..|chunks| - 1], cap), chunks[|chunks| - 1], cap)
  }

  class LineScanner {
    const cap: nat
    var stdoutBuf: string
    /** The lines given to the handler, in order. */
    var handled: seq<string>

    constructor (cap: nat)
      ensures this.cap == cap && Scan(handled, stdoutBuf) == PushAll([], cap)
    {
      this.cap, stdoutBuf, handled := cap, "", [];
    }

    method OnStdout(chunk: string)
      modifies this
      ensures Scan(handled, stdoutBuf) == Push(old(Scan(handled, stdoutBuf)), chunk, cap)
    {
      hide Trim, Lines, Clean, Rest, NewlineAt;
      stdoutBuf := stdoutBuf + chunk;
      ghost var text := stdoutBuf;
      var nl := NewlineAt(stdoutBuf);
      assert handled + Handled(stdoutBuf) == old(handled) + Handled(text);
      while nl < |stdoutBuf|
        invariant nl == NewlineAt(stdoutBuf)
        invariant handled + Handled(stdoutBuf) == old(handled) + Handled(text)
        invariant Rest(stdoutBuf) == Rest(text)
        decreases |stdoutBuf|
      {
        TakeLine(stdoutBuf);
        var line := Trim(stdoutBuf[..nl]);
        stdoutBuf := stdoutBuf[nl + 1..];
        nl := NewlineAt(stdoutBuf);
        if line == "" {
          assert [] + Handled(stdoutBuf) == Handled(stdoutBuf);
          continue;
        }
        assert handled + ([line] + Handled(stdoutBuf)) == handled + [line] + Handled(stdoutBuf);
        handled := handled + [line];
      }
      NoMoreLines(stdoutBuf);
      if |stdoutBuf| > cap {
        stdoutBuf := "";
      }
    }
  }

  /** Main result: for any split of a stream whose lines fit the cap, the handled lines are the
      split at newlines, trimmed, blanks dropped, and the buffer is what follows the last newline. */
  lemma {:induction false} AnyChunking(chunks: seq<string>, cap: nat)
    requires Fits(Flatten(chunks), cap)
    ensures PushAll(chunks, cap) == Scan(Handled(Flatten(chunks)), Rest(Flatten(chunks)))
  {
    if chunks != [] {
      var init, last := chunks[..|chunks| - 1], chunks[|chunks| - 1];
      assert chunks == init + [last];
      FlattenOfAppend(init, last);
      var a := Flatten(init);
      FitsPrefix(a, last, cap);
      AnyChunking(init, cap);
      ScanResumes(a, last);
      CleanOfConcat(Lines(a), Lines(Rest(a) + last));
    }
  }

  lemma ChunkingIndependent(c1: seq<string>, c2: seq<string>, cap: nat)
    requires Flatten(c1) == Flatten(c2) && Fits(Flatten(c1), cap)
    ensures PushAll(c1, cap) == PushAll(c2, cap)
  {
    AnyChunking(c1, cap);
    AnyChunking(c2, cap);
  }

  ghost predicate AllChunkingsAgree(s: string, cap: nat) {
    forall c1: seq<string>, c2: seq<string> ::
      Flatten(c1) == s && Flatten(c2) == s ==> PushAll(c1, cap) == PushAll(c2, cap)
  }

  lemma OneLine(line: string)
    requires NewlineAt(line) == |line|
    ensures Lines(line + "\n") == [line] && Rest(line + "\n") == ""
    ensures Handled(line + "\n") == CleanLine(line)
  {
    hide Trim;
    var s := line + "\n";
    NewlineOfConcat(line, "\n");
    assert NewlineAt("\n") == 0;
    assert s[..|line|] == line && s[|line| + 1..] == "";
    assert Lines("") == [] && Rest("") == "";
    assert Lines(s) == [line] + [];
    CleanOne(line);
  }

  lemma InOnePush(s: string, cap: nat)
    ensures PushAll([s], cap) == Scan(Handled(s), if |Rest(s)| > cap then "" else Rest(s))
    ensures Flatten([s]) == s
  {
    assert [s][..0] == [] && "" + s == s && [s][1..] == [];
    assert [] + Handled(s) == Handled(s);
  }

  /** Split just before its newline, an over-long line is discarded unread. */
  lemma OverlongLineLost(line: string, cap: nat)
    requires NewlineAt(line) == |line| > cap
    ensures PushAll([line, "\n"], cap).handled == []
    ensures Flatten([line, "\n"]) == line + "\n"
  {
    var split := [line, "\n"];
    assert split[..1] == [line] && split[1..] == ["\n"];
    InOnePush(line, cap);
    InOnePush("\n", cap);
    assert Handled(line) == [] && Rest(line) == line;
    assert PushAll([line], cap) == Scan([], "");
    assert "" + "\n" == "\n";
    OneLine("");
  }

  /** What follows the last newline, when the new piece has none, and when it has one. */
  lemma RestOfConcat(r: string, c: string)
    requires NewlineAt(r) == |r|
    ensures NewlineAt(c) == |c| ==> Rest(r + c) == r + c && Lines(r + c) == []
    ensures NewlineAt(c) < |c| ==> Rest(r + c) == Rest(c)
    ensures NewlineAt(c) < |c| ==> Lines(r + c) == [r + c[..NewlineAt(c)]] + Lines(c[NewlineAt(c) + 1..])
  {
    hide Lines, Rest, NewlineAt;
    NewlineOfConcat(r, c);
    var i := NewlineAt(c);
    if i < |c| {
      assert (r + c)[..|r| + i] == r + c[..i];
      assert (r + c)[|r| + i + 1..] == c[i + 1..];
      FirstOfLines(r + c);
      RestPastLine(r + c);
      RestPastLine(c);
    } else {
      NoMoreLines(r + c);
    }
  }

  predicate EndsWith(s: string, tail: string) {
    |tail| <= |s| && s[|s| - |tail|..] == tail
  }

  /** Whatever the stream and its chunks: the buffer is an end of the unterminated rest, all of it while
      it fits, and empty when it is one character too long. */
  predicate BufferHolds(rest: string, buf: string, cap: nat) {
    && |buf| <= cap && EndsWith(rest, buf)
    && (|rest| <= cap ==> buf == rest)
    && (|rest| == cap + 1 ==> buf == "")
  }

  lemma BufferGrows(rest: string, buf: string, c: string, cap: nat)
    requires BufferHolds(rest, buf, cap)
    ensures BufferHolds(rest + c, if |buf + c| > cap then "" else buf + c, cap)
  {
    assert rest[|rest| - |buf|..] + c == (rest + c)[|rest| - |buf|..];
  }

  lemma BufferFresh(text: string, cap: nat)
    ensures BufferHolds(text, if |text| > cap then "" else text, cap)
  {
  }

  lemma BufferStep(rest: string, buf: string, c: string, cap: nat)
    requires NewlineAt(rest) == |rest| && NewlineAt(buf) == |buf| && BufferHolds(rest, buf, cap)
    ensures var text := Rest(buf + c);
            BufferHolds(Rest(rest + c), if |text| > cap then "" else text, cap)
  {
    RestOfConcat(rest, c);
    RestOfConcat(buf, c);
    hide Rest, Lines, NewlineAt, BufferHolds;
    if NewlineAt(c) == |c| {
      BufferGrows(rest, buf, c, cap);
    } else {
      BufferFresh(Rest(c), cap);
    }
  }

  lemma {:induction false} BufferOfAny(chunks: seq<string>, cap: nat)
    ensures BufferHolds(Rest(Flatten(chunks)), PushAll(chunks, cap).buf, cap)
    ensures NewlineAt(PushAll(chunks, cap).buf) == |PushAll(chunks, cap).buf|
  {
    if chunks == [] {
      assert Rest("") == "";
    } else {
      var init, last := chunks[..|chunks| - 1], chunks[|chunks| - 1];
      BufferOfAny(init, cap);
      SplitLast(chunks);
      FlattenOfAppend(init, last);
      ScanResumes(Flatten(init), last);
      NewlineAbsentInRest(Flatten(init));
      NewlineAbsentInRest(PushAll(init, cap).buf + last);
      hide Rest, Lines, Clean, Flatten, BufferHolds, Trim;
      BufferStep(Rest(Flatten(init)), PushAll(init, cap).buf, last, cap);
    }
  }

  /** A line that may be handled short of its front: within the cap it is not, and a blank one is dropped anyway. */
  predicate KeptWhole(line: string, cap: nat) {
    |line| <= cap || Trim(line) == ""
  }

  predicate LinesKeptWhole(s: string, cap: nat) {
    forall i :: 0 <= i < |Lines(s)| ==> KeptWhole(Lines(s)[i], cap)
  }

  /** The line a newline ends is handled alike from the buffer and from the rest it stands for. */
  lemma SameLine(rest: string, buf: string, front: string, cap: nat)
    requires BufferHolds(rest, buf, cap) && KeptWhole(rest + front, cap)
    ensures CleanLine(buf + front) == CleanLine(rest + front)
  {
    hide Trim;
    if |rest| > cap {
      var lost := rest[..|rest| - |buf|];
      assert rest + front == lost + (buf + front);
      BlankEnd(lost, buf + front);
    }
  }

  lemma CleanOfCons(line: string, more: seq<string>)
    ensures Clean([line] + more) == CleanLine(line) + Clean(more)
  {
    assert ([line] + more)[1..] == more;
  }

  /** From the same point of the stream, the buffer and the rest it stands for lead to the same lines. */
  lemma SameLines(rest: string, buf: string, c: string, cap: nat)
    requires NewlineAt(rest) == |rest| && NewlineAt(buf) == |buf| && BufferHolds(rest, buf, cap)
    requires LinesKeptWhole(rest + c, cap)
    ensures Handled(buf + c) == Handled(rest + c)
  {
    RestOfConcat(rest, c);
    RestOfConcat(buf, c);
    hide Lines, NewlineAt, CleanLine, Clean, Rest, BufferHolds, KeptWhole;
    var i := NewlineAt(c);
    if i < |c| {
      var front, more := c[..i], Lines(c[i + 1..]);
      assert Lines(rest + c)[0] == rest + front;
      SameLine(rest, buf, front, cap);
      CleanOfCons(rest + front, more);
      CleanOfCons(buf + front, more);
    }
  }

  lemma KeptWholeParts(a: string, c: string, cap: nat)
    requires LinesKeptWhole(a + c, cap)
    ensures LinesKeptWhole(a, cap) && LinesKeptWhole(Rest(a) + c, cap)
  {
    ScanResumes(a, c);
    hide Lines, Rest, KeptWhole;
    forall i | 0 <= i < |Lines(a)|
      ensures KeptWhole(Lines(a)[i], cap)
    {
      assert Lines(a + c)[i] == Lines(a)[i];
    }
    forall i | 0 <= i < |Lines(Rest(a) + c)|
      ensures KeptWhole(Lines(Rest(a) + c)[i], cap)
    {
      assert Lines(a + c)[|Lines(a)| + i] == Lines(Rest(a) + c)[i];
    }
  }

  lemma {:induction false} HandledOfAny(chunks: seq<string>, cap: nat)
    requires LinesKeptWhole(Flatten(chunks), cap)
    ensures PushAll(chunks, cap).handled == Handled(Flatten(chunks))
  {
    if chunks != [] {
      var init, last := chunks[..|chunks| - 1], chunks[|chunks| - 1];
      var a := Flatten(init);
      SplitLast(chunks);
      FlattenOfAppend(init, last);
      KeptWholeParts(a, last, cap);
      HandledOfAny(init, cap);
      BufferOfAny(init, cap);
      NewlineAbsentInRest(a);
      ScanResumes(a, last);
      SameLines(Rest(a), PushAll(init, cap).buf, last, cap);
      CleanOfConcat(Lines(a), Lines(Rest(a) + last));
    }
  }

  /** The exact condition: no line over the cap unless it is blank, and a rest that is at most one
      character over it, or a cap of zero, under which nothing is ever kept. */
  predicate ChunkingHidden(s: string, cap: nat) {
    LinesKeptWhole(s, cap) && (cap == 0 || |Rest(s)| <= cap + 1)
  }

  lemma HiddenChunkingsAgree(s: string, cap: nat)
    requires ChunkingHidden(s, cap)
    ensures AllChunkingsAgree(s, cap)
  {
    hide Flatten, PushAll, LinesKeptWhole, Rest;
    forall c1: seq<string>, c2: seq<string> | Flatten(c1) == s && Flatten(c2) == s
      ensures PushAll(c1, cap) == PushAll(c2, cap)
    {
      HandledOfAny(c1, cap);
      HandledOfAny(c2, cap);
      BufferOfAny(c1, cap);
      BufferOfAny(c2, cap);
    }
  }

  lemma InTwoPushes(x: string, y: string, cap: nat)
    ensures var buf := if |Rest(x)| > cap then "" else Rest(x);
            PushAll([x, y], cap) == Push(Scan(Handled(x), buf), y, cap)
    ensures Flatten([x, y]) == x + y
  {
    InOnePush(x, cap);
    assert [x, y][..1] == [x] && [x, y][1..] == [y];
    assert Flatten([y]) == y + Flatten([]);
  }

  /** A line, its newline, and the stream after it. */
  function Ended(line: string, tail: string): string {
    line + ("\n" + tail)
  }

  lemma LineInFront(line: string, tail: string)
    requires NewlineAt(line) == |line|
    ensures var s := Ended(line, tail);
            Lines(s) == [line] + Lines(tail) && Rest(s) == Rest(tail)
  {
    var c := "\n" + tail;
    RestOfConcat(line, c);
    assert NewlineAt(c) == 0 && c[..0] == "" && c[1..] == tail && line + "" == line;
  }

  lemma FirstLine(s: string)
    requires NewlineAt(s) < |s|
    ensures var i := NewlineAt(s);
            s == Ended(s[..i], s[i + 1..]) && NewlineAt(s[..i]) == |s[..i]|
  {
    NewlineIsFirst(s);
  }

  lemma LineThen(line: string, a: string, b: string)
    ensures Ended(line, a) + b == Ended(line, a + b)
  {
  }

  lemma HasNewline(s: string)
    requires Lines(s) != []
    ensures NewlineAt(s) < |s|
  {
  }

  lemma FirstAndRest(s: string) returns (line: string, tail: string)
    requires NewlineAt(s) < |s|
    ensures s == Ended(line, tail) && NewlineAt(line) == |line| && |tail| < |s|
    ensures Lines(s) == [line] + Lines(tail) && Rest(s) == Rest(tail)
  {
    hide Lines, Rest, NewlineAt, Ended;
    line, tail := s[..NewlineAt(s)], s[NewlineAt(s) + 1..];
    FirstLine(s);
    LineInFront(line, tail);
  }

  /** A stream around one of its lines. */
  lemma {:induction false} AroundLine(s: string, k: nat) returns (before: string, after: string)
    requires k < |Lines(s)|
    ensures s == before + Ended(Lines(s)[k], after) && Rest(before) == "" && NewlineAt(Lines(s)[k]) == |Lines(s)[k]|
    decreases |s|
  {
    hide Lines, Rest, NewlineAt, Ended;
    HasNewline(s);
    var line, tail := FirstAndRest(s);
    if k == 0 {
      NoMoreLines("");
      before, after := "", tail;
      assert "" + s == s;
    } else {
      assert Lines(s)[k] == Lines(tail)[k - 1];
      var b;
      b, after := AroundLine(tail, k - 1);
      before := Ended(line, b);
      OneLineBack(line, tail, b, Ended(Lines(tail)[k - 1], after));
    }
  }

  lemma OneLineBack(line: string, tail: string, before: string, around: string)
    requires NewlineAt(line) == |line| && tail == before + around && Rest(before) == ""
    ensures Ended(line, tail) == Ended(line, before) + around && Rest(Ended(line, before)) == ""
  {
    hide Lines, Rest, NewlineAt, Ended;
    LineInFront(line, before);
    LineThen(line, before, around);
  }

  /** Cut before its newline, an over-long line that is not blank is missing from what is handled. */
  lemma LongLineShows(s: string, k: nat, cap: nat)
    requires k < |Lines(s)| && !KeptWhole(Lines(s)[k], cap)
    ensures !AllChunkingsAgree(s, cap)
  {
    hide Lines, Rest, NewlineAt, Handled, Trim, Flatten, PushAll, AllChunkingsAgree;
    var before, after := AroundLine(s, k);
    var line := Lines(s)[k];
    var x, y := before + line, "\n" + after;
    ConcatAssociates(before, line, y);
    CutLine(before, line, after);
    InOnePush(s, cap);
    InTwoPushes(x, y, cap);
    assert "" + y == y;
    assert |PushAll([x, y], cap).handled| < |PushAll([s], cap).handled|;
    TwoChunkingsDiffer([s], [x, y], s, cap);
  }

  lemma TwoChunkingsDiffer(c1: seq<string>, c2: seq<string>, s: string, cap: nat)
    requires Flatten(c1) == s && Flatten(c2) == s && PushAll(c1, cap) != PushAll(c2, cap)
    ensures !AllChunkingsAgree(s, cap)
  {
    hide Flatten, PushAll;
  }

  lemma CutLine(before: string, line: string, after: string)
    requires Rest(before) == "" && NewlineAt(line) == |line|
    ensures var x, y := before + line, "\n" + after;
            && Rest(x) == line
            && |Handled(x + y)| == |Handled(x)| + |CleanLine(line)| + |Handled(y)|
  {
    var y := "\n" + after;
    ScanResumes(before, line);
    ScanResumes(before + line, y);
    assert "" + line == line && NewlineAt(y) == 0 && y[1..] == after;
    RestOfConcat(line, y);
    assert line + y[..0] == line && Lines(y) == [""] + Lines(after);
    hide Lines, Rest, NewlineAt, Trim;
    CleanOfConcat(Lines(before + line), [line] + Lines(after));
    CleanOfConcat([line], Lines(after));
    CleanOfConcat([""], Lines(after));
    CleanOne(line);
    CleanOne("");
    BlankIsDropped();
  }

  lemma BlankIsDropped()
    ensures CleanLine("") == []
  {
  }

  /** The front of a stream up to its rest. */
  lemma {:induction false} BeforeRest(s: string) returns (before: string)
    ensures s == before + Rest(s) && Rest(before) == ""
    decreases |s|
  {
    if NewlineAt(s) == |s| {
      NoMoreLines(s);
      NoMoreLines("");
      before := "";
      assert "" + s == s;
    } else {
      hide Lines, Rest, NewlineAt, Ended;
      var line, tail := FirstAndRest(s);
      var b := BeforeRest(tail);
      before := Ended(line, b);
      OneLineBack(line, tail, b, Rest(tail));
    }
  }

  /** Cut before its last character, a rest two or more over the cap leaves that character behind. */
  lemma LongRestShows(s: string, cap: nat)
    requires cap > 0 && |Rest(s)| > cap + 1
    ensures !AllChunkingsAgree(s, cap)
  {
    hide Lines, Rest, NewlineAt, Handled, Trim, Flatten, PushAll, AllChunkingsAgree;
    var before := BeforeRest(s);
    var rest := Rest(s);
    var front, end := rest[..|rest| - 1], rest[|rest| - 1..];
    CutRest(s, before);
    InOnePush(s, cap);
    InTwoPushes(before + front, end, cap);
    assert "" + end == end;
    assert PushAll([s], cap).buf == "" && PushAll([before + front, end], cap).buf == end;
    TwoChunkingsDiffer([s], [before + front, end], s, cap);
  }

  lemma CutRest(s: string, before: string)
    requires s == before + Rest(s) && Rest(before) == "" && Rest(s) != ""
    ensures var rest := Rest(s);
            var front, end := rest[..|rest| - 1], rest[|rest| - 1..];
            (before + front) + end == s && Rest(before + front) == front && Rest(end) == end
  {
    var rest := Rest(s);
    var front, end := rest[..|rest| - 1], rest[|rest| - 1..];
    NewlineAbsentInRest(s);
    assert rest == front + end;
    NewlineOfConcat(front, end);
    ScanResumes(before, front);
    RestOfConcat("", front);
    hide Lines, Rest, NewlineAt;
    assert "" + front == front;
    ConcatAssociates(before, front, end);
    NoMoreLines(end);
  }

  /** Main result: how a stream is chunked shows in the handled lines or the buffer exactly when a line
      over the cap is not blank, or the cap keeps anything and the rest is two or more over it. */
  lemma ChunkingHiddenExactly(s: string, cap: nat)
    ensures AllChunkingsAgree(s, cap)
            <==> (forall i :: 0 <= i < |Lines(s)| ==> |Lines(s)[i]| <= cap || Trim(Lines(s)[i]) == "")
                 && (cap == 0 || |Rest(s)| <= cap + 1)
  {
    hide Lines, Rest, Trim, AllChunkingsAgree;
    if ChunkingHidden(s, cap) {
      HiddenChunkingsAgree(s, cap);
    } else if !LinesKeptWhole(s, cap) {
      var k :| 0 <= k < |Lines(s)| && !KeptWhole(Lines(s)[k], cap);
      LongLineShows(s, k, cap);
    } else {
      LongRestShows(s, cap);
    }
  }

  /** For a single line: the cap is exact, one character more and the chunking shows. */
  lemma OneLineExactly(line: string, cap: nat)
    requires NewlineAt(line) == |line| && Trim(line) != ""
    ensures AllChunkingsAgree(line + "\n", cap) <==> |line| <= cap
  {
    OneLine(line);
    ChunkingHiddenExactly(line + "\n", cap);
    hide Lines, Rest, Trim, AllChunkingsAgree;
    assert Lines(line + "\n")[0] == line;
  }

  // ---------------------------------------------------------------- the session-id scanner

  /** The first id any of the lines yields; an empty id does not count. */
  function FirstId(extract: string -> Option<string>, lines: seq<string>): Option<string> {
    if lines == [] then None
    else if extract(lines[0]).Some? && extract(lines[0]).value != "" then extract(lines[0])
    else FirstId(extract, lines[1..])
  }

  /** A line yields an id when extraction gives one that is not empty. */
  predicate Yields(extract: string -> Option<string>, line: string, id: string) {
    id != "" && extract(line) == Some(id)
  }

  /** The id found is that of the first line that yields one, and none is found when no line does. */
  lemma {:induction false} FirstIdExactly(extract: string -> Option<string>, lines: seq<string>)
    ensures match FirstId(extract, lines)
            case Some(id) =>
              exists i :: 0 <= i < |lines| && Yields(extract, lines[i], id)
                && forall j, other :: 0 <= j < i ==> !Yields(extract, lines[j], other)
            case None => forall j, id :: 0 <= j < |lines| ==> !Yields(extract, lines[j], id)
  {
    if lines != [] && !Yields(extract, lines[0], if extract(lines[0]).Some? then extract(lines[0]).value else "") {
      FirstIdExactly(extract, lines[1..]);
      assert forall j :: 0 < j < |lines| ==> lines[j] == lines[1..][j - 1];
      if FirstId(extract, lines[1..]).Some? {
        var id := FirstId(extract, lines[1..]).value;
        var i :| 0 <= i < |lines[1..]| && Yields(extract, lines[1..][i], id)
                 && forall j, other :: 0 <= j < i ==> !Yields(extract, lines[1..][j], other);
        assert Yields(extract, lines[i + 1], id);
      }
    }
  }

  datatype IdScan = IdScan(buf: string, reports: seq<string>)

  /** Goes inert after its first report. */
  function IdPush(extract: string -> Option<string>, s: IdScan, chunk: string, cap: nat): IdScan {
    if s.reports != [] then s
    else
      var text := s.buf + chunk;
      var id := FirstId(extract, Handled(text));
      if id.Some? then IdScan("", [id.value])
      else IdScan(if |Rest(text)| > cap then "" else Rest(text), [])
  }

  function IdPushAll(extract: string -> Option<string>, chunks: seq<string>, cap: nat): IdScan {
    if chunks == [] then IdScan("", [])
    else IdPush(extract, IdPushAll(extract, chunks[..|chunks| - 1], cap), chunks[|chunks| - 1], cap)
  }

  lemma NoId(extract: string -> Option<string>)
    ensures FirstId(extract, []) == None
  {
  }

  lemma FirstIdStep(extract: string -> Option<string>, line: string, rest: seq<string>)
    ensures FirstId(extract, [line] + rest)
            == if extract(line).Some? && extract(line).value != "" then extract(line) else FirstId(extract, rest)
  {
    assert ([line] + rest)[1..] == rest;
  }

  /** What is left to find after the first line of the buffer has been looked at. */
  lemma IdAfterLine(extract: string -> Option<string>, buf: string)
    requires NewlineAt(buf) < |buf|
    ensures var nl := NewlineAt(buf);
            var line := Trim(buf[..nl]);
            && FirstId(extract, Handled(buf))
               == (if line != "" && extract(line).Some? && extract(line).value != "" then extract(line)
                   else FirstId(extract, Handled(buf[nl + 1..])))
            && Rest(buf) == Rest(buf[nl + 1..])
  {
    hide Trim, Handled, NewlineAt, Rest, FirstId;
    var nl := NewlineAt(buf);
    TakeLine(buf);
    var rest := Handled(buf[nl + 1..]);
    FirstIdStep(extract, Trim(buf[..nl]), rest);
    assert [] + rest == rest;
  }

  lemma NoIdLeft(extract: string -> Option<string>, buf: string)
    requires NewlineAt(buf) == |buf|
    ensures FirstId(extract, Handled(buf)) == None && Rest(buf) == buf
  {
    NoMoreLines(buf);
    NoId(extract);
  }

  class SessionIdScanner {
    const extract: string -> Option<string>
    const cap: nat
    var buf: string
    var done: bool
    /** The ids onFound was called with. */
    var reports: seq<string>

    /** The buffer no longer matters once an id has been reported. */
    function State(): IdScan
      reads this
    {
      IdScan(if done then "" else buf, reports)
    }

    predicate Valid()
      reads this
    {
      done <==> reports != []
    }

    constructor (extract: string -> Option<string>, cap: nat)
      ensures Valid() && State() == IdPushAll(extract, [], cap)
      ensures this.extract == extract && this.cap == cap
    {
      this.extract, this.cap := extract, cap;
      buf, done, reports := "", false, [];
    }

    method PushChunk(c: string)
      requires Valid()
      modifies this
      ensures Valid() && State() == IdPush(extract, old(State()), c, cap)
    {
      if done {
        return;
      }
      hide Trim, Handled, Rest, NewlineAt, FirstId;
      buf := buf + c;
      ghost var text := buf;
      var nl := NewlineAt(buf);
      while nl < |buf|
        invariant nl == NewlineAt(buf) && !done && reports == []
        invariant FirstId(extract, Handled(buf)) == FirstId(extract, Handled(text))
        invariant Rest(buf) == Rest(text)
        decreases |buf|
      {
        IdAfterLine(extract, buf);
        var line := Trim(buf[..nl]);
        buf := buf[nl + 1..];
        nl := NewlineAt(buf);
        if line == "" {
          continue;
        }
        var id := extract(line);
        if id.Some? && id.value != "" {
          done := true;
          reports := reports + [id.value];
          return;
        }
      }
      NoIdLeft(extract, buf);
      if |buf| > cap {
        buf := "";
      }
    }
  }

  lemma {:induction false} FirstIdOfConcat(extract: string -> Option<string>, a: seq<string>, b: seq<string>)
    ensures FirstId(extract, a + b) == if FirstId(extract, a).Some? then FirstId(extract, a) else FirstId(extract, b)
  {
    if a == [] {
      assert a + b == b;
    } else {
      FirstIdOfConcat(extract, a[1..], b);
      assert (a + b)[0] == a[0] && (a + b)[1..] == a[1..] + b;
    }
  }

  /** Main result: over any split of the stream, the first extractable id is reported exactly once,
      and nothing else ever is. */
  lemma {:induction false} ReportsFirstIdOnce(extract: string -> Option<string>, chunks: seq<string>, cap: nat)
    requires Fits(Flatten(chunks), cap)
    ensures var id := FirstId(extract, Handled(Flatten(chunks)));
            && IdPushAll(extract, chunks, cap).reports == (if id.Some? then [id.value] else [])
            && (id.None? ==> IdPushAll(extract, chunks, cap).buf == Rest(Flatten(chunks)))
  {
    if chunks != [] {
      var init, last := chunks[..|chunks| - 1], chunks[|chunks| - 1];
      assert chunks == init + [last];
      FlattenOfAppend(init, last);
      var a := Flatten(init);
      FitsPrefix(a, last, cap);
      ReportsFirstIdOnce(extract, init, cap);
      ScanResumes(a, last);
      CleanOfConcat(Lines(a), Lines(Rest(a) + last));
      FirstIdOfConcat(extract, Handled(a), Handled(Rest(a) + last));
    }
  }

  // ---------------------------------------------------------------- the tail sink

  /** Buffer.subarray(-n): minus zero is zero, so n == 0 keeps everything. */
  function Subtail(s: seq<byte>, n: nat): seq<byte> {
    if n == 0 then s else LastN(s, n)
  }

  class TailSink {
    const maxBytes: nat
    var chunks: seq<seq<byte>>
    var total: nat
    /** Every byte ever pushed. */
    ghost var history: seq<byte>

    ghost predicate Valid()
      reads this
    {
      && total == |Flatten(chunks)|
      && Subtail(Flatten(chunks), maxBytes) == Subtail(history, maxBytes)
      && (0 < maxBytes ==> total <= 2 * maxBytes)
    }

    constructor (maxBytes: nat)
      ensures Valid() && history == [] && this.maxBytes == maxBytes
    {
      this.maxBytes := maxBytes;
      chunks, total, history := [], 0, [];
    }

    method PushChunk(c: seq<byte>)
      requires Valid()
      modifies this
      ensures Valid() && history == old(history) + c
    {
      ghost var held := Flatten(chunks);
      FlattenOfAppend(chunks, c);
      chunks := chunks + [c];
      total := total + |c|;
      history := history + c;
      if maxBytes > 0 {
        LastNOfExtension(held, c, maxBytes);
        LastNOfExtension(old(history), c, maxBytes);
      }
      if total > maxBytes * 2 {
        var merged := Subtail(Flatten(chunks), maxBytes);
        chunks := [merged];
        assert Flatten([merged]) == merged;
        total := |merged|;
      }
    }

    /** The last maxBytes of everything pushed; a sink of size zero keeps, and returns, everything. */
    method TailText() returns (tail: seq<byte>)
      requires Valid()
      ensures tail == if maxBytes == 0 then history else LastN(history, maxBytes)
      ensures |tail| <= maxBytes <==> maxBytes > 0 || history == []
    {
      tail := Subtail(Flatten(chunks), maxBytes);
    }
  }
}
