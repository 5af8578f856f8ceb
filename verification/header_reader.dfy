/** The header reader of smailgun.c, `header_parse` (smailgun.c:338-422): a
    byte-level state machine that remembers only the previous byte, unfolds
    nothing, and hands every completed header line to `header_save`.

    The C code keeps a growing buffer with a write cursor; here the buffer is
    a sequence, and the lines handed on are collected in order. */
module HeaderReader {
  import opened CStrings

  /** SP or HT, the bytes that mark a continuation line. */
  predicate IsWsp(c: char) {
    c == ' ' || c == '\t'
  }

  /** The reader's state: the bytes of the pending header, the previous byte
      (`l`, NUL before the first byte), the lines handed on so far, and
      whether the header section is still being read. */
  datatype Reader = Reader(buf: string, last: char, emitted: seq<string>, inHeader: bool)

  const Start: Reader := Reader([], NUL, [], true)

  /** The bookkeeping every state keeps: the buffer ends with the previous
      byte, and is empty only before the first byte. */
  predicate Inv(r: Reader) {
    && (|r.buf| > 0 ==> r.buf[|r.buf| - 1] == r.last)
    && (|r.buf| == 0 ==> r.last == NUL)
  }

  /** Completing the pending header (smailgun.c:377-381): `header_save` sees the
      buffer as a C string, cut at its last LF. */
  function Flush(buf: string): (h: string)
    ensures h <= CStr(buf)
    ensures '\n' !in CStr(buf) ==> h == CStr(buf)
    ensures '\n' in CStr(buf) ==>
      && |h| < |CStr(buf)| && CStr(buf)[|h|] == '\n'
      && forall j :: |h| < j < |CStr(buf)| ==> CStr(buf)[j] != '\n'
  {
    var s := CStr(buf);
    match LastIndexOf(s, '\n')
    case Some(k) => s[..k]
    case None => s
  }

  /** One byte read while still in the header section (smailgun.c:357-389). */
  function Step(r: Reader, c: char): (r': Reader)
    requires Inv(r) && r.inHeader
    ensures Inv(r') && r'.last == c
  {
    if r.last == '\n' then
      if IsWsp(c) then
        // A continuation: the LF before it becomes CR LF.
        Reader(r.buf[..|r.buf| - 1] + ['\r', '\n', c], c, r.emitted, true)
      else
        // Any other byte completes the header; a second LF ends the section.
        Reader([c], c, r.emitted + [Flush(r.buf)], c != '\n')
    else
      Reader(r.buf + [c], c, r.emitted, true)
  }

  /** The reading loop (smailgun.c:345-390): stops at end of input or once the
      blank line has been seen. */
  function Run(r: Reader, input: string): (r': Reader)
    requires Inv(r)
    ensures Inv(r')
    decreases |input|
  {
    if |input| == 0 || !r.inHeader then r else Run(Step(r, input[0]), input[1..])
  }

  /** `header_parse(stream)`: every header line handed to `header_save`, in
      order. At end of input the pending header is handed on only when the
      last byte was LF (smailgun.c:391-420). */
  function HeaderLines(input: string): (hs: seq<string>)
    ensures GoodLines(hs)
  {
    RunGood(Start, input);
    var r := Run(Start, input);
    if r.inHeader && r.last == '\n' then
      FlushFolded(r.buf);
      r.emitted + [Flush(r.buf)]
    else r.emitted
  }

  // ---------------------------------------------------------------------------
  // Every LF in a header line is a fold: preceded by CR, followed by SP or HT.

  predicate Folded(h: string) {
    forall k :: 0 <= k < |h| && h[k] == '\n' ==> 0 < k < |h| - 1 && h[k - 1] == '\r' && IsWsp(h[k + 1])
  }

  /** The pending buffer keeps the same shape, except for its final byte. */
  predicate BufFolded(buf: string) {
    forall k :: 0 <= k < |buf| - 1 && buf[k] == '\n' ==> 0 < k && buf[k - 1] == '\r' && IsWsp(buf[k + 1])
  }

  predicate GoodLines(hs: seq<string>) {
    forall i :: 0 <= i < |hs| ==> Folded(hs[i]) && NoNul(hs[i])
  }

  predicate Good(r: Reader) {
    Inv(r) && BufFolded(r.buf) && GoodLines(r.emitted)
  }

  /** A prefix cut just before a byte that is neither SP nor HT is folded. */
  lemma FoldedPrefix(buf: string, m: nat)
    requires BufFolded(buf)
    requires m < |buf| && !IsWsp(buf[m])
    ensures Folded(buf[..m])
  {
    var h := buf[..m];
    forall k | 0 <= k < |h| && h[k] == '\n'
      ensures 0 < k < |h| - 1 && h[k - 1] == '\r' && IsWsp(h[k + 1])
    {
      assert buf[k] == '\n' && k < |buf| - 1;
      assert IsWsp(buf[k + 1]);
    }
  }

  /** A completed header is a folded C string. */
  lemma FlushFolded(buf: string)
    requires BufFolded(buf) && |buf| > 0 && buf[|buf| - 1] == '\n'
    ensures Folded(Flush(buf)) && NoNul(Flush(buf))
  {
    var s := CStr(buf);
    assert LastIndexOf(buf, '\n').Some?;
    assert |s| == |buf| ==> s == buf;
    match LastIndexOf(s, '\n')
    case Some(k) =>
      assert s[k] == buf[k];
      assert s[..k] == buf[..k];
      FoldedPrefix(buf, k);
    case None =>
      FoldedPrefix(buf, |s|);
  }

  lemma StepGood(r: Reader, c: char)
    requires Good(r) && r.inHeader
    ensures Good(Step(r, c))
  {
    var r' := Step(r, c);
    if r.last == '\n' {
      if IsWsp(c) {
        var b := r.buf[..|r.buf| - 1];
        assert r'.buf == b + ['\r', '\n', c];
        forall k | 0 <= k < |r'.buf| - 1 && r'.buf[k] == '\n'
          ensures 0 < k && r'.buf[k - 1] == '\r' && IsWsp(r'.buf[k + 1])
        {
          if k < |b| {
            assert r.buf[k] == '\n';
            assert IsWsp(r.buf[k + 1]);
            assert k + 1 < |b|;
          }
        }
      } else {
        FlushFolded(r.buf);
      }
    } else {
      forall k | 0 <= k < |r'.buf| - 1 && r'.buf[k] == '\n'
        ensures 0 < k && r'.buf[k - 1] == '\r' && IsWsp(r'.buf[k + 1])
      {
        assert k < |r.buf|;
        assert r.buf[k] == '\n';
      }
    }
  }

  lemma {:induction false} RunGood(r: Reader, input: string)
    requires Good(r)
    ensures Good(Run(r, input))
    decreases |input|
  {
    if |input| > 0 && r.inHeader {
      StepGood(r, input[0]);
      RunGood(Step(r, input[0]), input[1..]);
    }
  }

  // ---------------------------------------------------------------------------
  // The blank line ends the header section; an unterminated last line is lost.

  lemma {:induction false} RunAppend(r: Reader, a: string, b: string)
    requires Inv(r)
    ensures Run(r, a + b) == Run(Run(r, a), b)
    decreases |a|
  {
    if |a| == 0 {
      assert a + b == b;
    } else if r.inHeader {
      assert (a + b)[1..] == a[1..] + b;
      RunAppend(Step(r, a[0]), a[1..], b);
    } else {
      assert Run(r, a + b) == r;
    }
  }

  /** Once the section has ended, nothing after it is read. */
  lemma StoppedIgnoresRest(a: string, b: string)
    requires !Run(Start, a).inHeader
    ensures HeaderLines(a + b) == HeaderLines(a)
  {
    RunAppend(Start, a, b);
  }

  /** Two LFs in a row end the header section. */
  lemma BlankLineStops(a: string)
    ensures !Run(Start, a + "\n\n").inHeader
  {
    RunAppend(Start, a, "\n\n");
    var r := Run(Start, a);
    if r.inHeader {
      var r1 := Step(r, '\n');
      assert Run(r, "\n\n") == Run(r1, "\n");
      if r1.inHeader {
        assert Run(r1, "\n") == Step(r1, '\n');
      }
    }
  }

  /** Bytes without LF extend the pending header and hand nothing on. */
  lemma {:induction false} RunNoLf(r: Reader, s: string)
    requires Inv(r) && r.inHeader && r.last != '\n'
    requires forall j :: 0 <= j < |s| ==> s[j] != '\n'
    ensures Run(r, s) == Reader(r.buf + s, if |s| == 0 then r.last else s[|s| - 1], r.emitted, true)
    decreases |s|
  {
    if |s| == 0 {
      assert r.buf + s == r.buf;
    } else {
      var r1 := Step(r, s[0]);
      assert r1.buf == r.buf + [s[0]];
      RunNoLf(r1, s[1..]);
      assert r.buf + [s[0]] + s[1..] == r.buf + s;
      if |s| > 1 {
        assert s[1..][|s[1..]| - 1] == s[|s| - 1];
      }
    }
  }

  /** A final line with no LF after it is never handed on (the source drops
      it), provided it does not itself continue the previous header. */
  lemma UnterminatedLineDropped(x: string, tail: string)
    requires Run(Start, x).inHeader
    requires |tail| > 0 && forall j :: 0 <= j < |tail| ==> tail[j] != '\n'
    requires Run(Start, x).last == '\n' ==> !IsWsp(tail[0])
    ensures HeaderLines(x + tail) == HeaderLines(x)
  {
    RunAppend(Start, x, tail);
    var r := Run(Start, x);
    if r.last == '\n' {
      var r1 := Step(r, tail[0]);
      RunNoLf(r1, tail[1..]);
    } else {
      RunNoLf(r, tail);
    }
  }

  /** A final continuation line with no LF after it takes the whole pending
      header with it: the field it continues is never handed on either. */
  lemma UnterminatedFieldLost(x: string, tail: string)
    requires Run(Start, x).inHeader && Run(Start, x).last == '\n'
    requires |tail| > 0 && IsWsp(tail[0]) && NoLf(tail)
    ensures HeaderLines(x) == HeaderLines(x + tail) + [Flush(Run(Start, x).buf)]
  {
    RunAppend(Start, x, tail);
    var r := Run(Start, x);
    var r1 := Step(r, tail[0]);
    RunNoLf(r1, tail[1..]);
  }

  /** Lines handed on earlier do not influence the reader. */
  lemma {:induction false} RunEmitted(r: Reader, e: seq<string>, input: string)
    requires Inv(r)
    ensures var r' := Run(r, input);
      Run(r.(emitted := e + r.emitted), input) == r'.(emitted := e + r'.emitted)
    decreases |input|
  {
    if |input| > 0 && r.inHeader {
      var c := input[0];
      if r.last == '\n' && !IsWsp(c) {
        assert e + r.emitted + [Flush(r.buf)] == e + (r.emitted + [Flush(r.buf)]);
      }
      RunEmitted(Step(r, c), e, input[1..]);
    }
  }

  lemma RunLeadingBlank(s: string)
    requires |s| > 0 && s[0] != '\n' && !IsWsp(s[0])
    ensures var r := Run(Start, s);
      Run(Start, "\n" + s) == r.(emitted := [""] + r.emitted)
  {
    var r1 := Step(Start, '\n');
    assert r1 == Reader("\n", '\n', [], true);
    assert Flush("\n") == "";
    var r2 := Step(r1, s[0]);
    var t := Step(Start, s[0]);
    assert r2 == t.(emitted := [""] + t.emitted);
    assert ("\n" + s)[1..] == s;
    assert Run(Start, "\n" + s) == Run(r2, s[1..]);
    assert Run(Start, s) == Run(t, s[1..]);
    RunEmitted(t, [""], s[1..]);
  }

  /** A blank line at the very start does not end the header section, since
      the remembered previous byte starts out as NUL: it is handed on as an
      empty header, and what follows it, the body included, is read as
      headers. */
  lemma LeadingBlankLineReadsOn(s: string)
    requires |s| > 0 && s[0] != '\n' && !IsWsp(s[0])
    ensures HeaderLines("\n" + s) == [""] + HeaderLines(s)
  {
    RunLeadingBlank(s);
  }

  // ---------------------------------------------------------------------------
  // Round trip: a header section written with bare LFs comes back one line per
  // header, each fold turned into CR LF.

  predicate NoLf(s: string) {
    forall j :: 0 <= j < |s| ==> s[j] != '\n'
  }

  /** A header as a sender writes it: a first line, then continuation lines. */
  datatype Field = Field(first: string, conts: seq<string>)

  /** The first line starts with neither SP, HT nor LF; every continuation
      starts with SP or HT; no line holds an LF or a NUL. */
  predicate WellFormed(f: Field) {
    && |f.first| > 0 && !IsWsp(f.first[0]) && NoLf(f.first) && NoNul(f.first)
    && forall i :: 0 <= i < |f.conts| ==>
         |f.conts[i]| > 0 && IsWsp(f.conts[i][0]) && NoLf(f.conts[i]) && NoNul(f.conts[i])
  }

  predicate AllWellFormed(fs: seq<Field>) {
    forall i :: 0 <= i < |fs| ==> WellFormed(fs[i])
  }

  /** The lines of `cs`, each preceded by `sep`. */
  function Join(cs: seq<string>, sep: string): string {
    if |cs| == 0 then [] else sep + cs[0] + Join(cs[1..], sep)
  }

  /** The field as it arrives on the input, lines ended by LF. */
  function Wire(f: Field): string {
    f.first + Join(f.conts, "\n")
  }

  /** The field as it is handed to `header_save`, folds ended by CR LF. */
  function Render(f: Field): string {
    f.first + Join(f.conts, "\r\n")
  }

  /** A header section: every field followed by its final LF. */
  function Section(fs: seq<Field>): string {
    if |fs| == 0 then [] else Wire(fs[0]) + "\n" + Section(fs[1..])
  }

  function Renders(fs: seq<Field>): seq<string> {
    if |fs| == 0 then [] else [Render(fs[0])] + Renders(fs[1..])
  }

  lemma {:induction false} JoinNoNul(cs: seq<string>, sep: string)
    requires NoNul(sep) && forall i :: 0 <= i < |cs| ==> NoNul(cs[i])
    ensures NoNul(Join(cs, sep))
    decreases |cs|
  {
    if |cs| > 0 {
      JoinNoNul(cs[1..], sep);
      assert forall i :: 0 <= i < |cs[1..]| ==> cs[1..][i] == cs[i + 1];
    }
  }

  /** A completed field is handed on exactly as rendered. */
  lemma FlushRendered(fs: seq<Field>, i: nat)
    requires i < |fs| && AllWellFormed(fs)
    ensures Flush(Render(fs[i]) + "\n") == Render(fs[i])
  {
    var f := fs[i];
    JoinNoNul(f.conts, "\r\n");
    var x := Render(f) + "\n";
    assert NoNul(x);
    assert CStr(x) == x;
    assert x[..|x| - 1] == Render(f);
  }

  /** A continuation byte after a pending LF: the LF becomes CR LF. */
  lemma FoldStep(x: string, e: seq<string>, b: char)
    requires IsWsp(b)
    ensures Step(Reader(x + "\n", '\n', e, true), b) == Reader(x + ['\r', '\n', b], b, e, true)
  {
    assert (x + "\n")[..|x + "\n"| - 1] == x;
  }

  lemma FoldText(x: string, c: string)
    requires |c| > 0
    ensures x + ['\r', '\n', c[0]] + c[1..] == x + "\r\n" + c
  {
    assert ['\r', '\n', c[0]] + c[1..] == "\r\n" + c;
    SeqAssoc(x, ['\r', '\n', c[0]], c[1..], []);
    SeqAssoc(x, "\r\n", c, []);
  }

  /** A continuation line after a pending LF: the LF becomes CR LF. */
  lemma ContinuationLine(x: string, e: seq<string>, c: string)
    requires |c| > 0 && IsWsp(c[0]) && NoLf(c)
    ensures Run(Reader(x + "\n", '\n', e, true), c)
         == Reader(x + "\r\n" + c, c[|c| - 1], e, true)
  {
    var r := Reader(x + "\n", '\n', e, true);
    var r1 := Reader(x + ['\r', '\n', c[0]], c[0], e, true);
    FoldStep(x, e, c[0]);
    assert Run(r, c) == Run(r1, c[1..]);
    RunNoLf(r1, c[1..]);
    FoldText(x, c);
    assert |c| > 1 ==> c[1..][|c[1..]| - 1] == c[|c| - 1];
  }

  lemma JoinCons(cs: seq<string>, sep: string)
    requires |cs| > 0
    ensures Join(cs, sep) + "\n" == sep + (cs[0] + (Join(cs[1..], sep) + "\n"))
    ensures Join(cs, sep) == sep + cs[0] + Join(cs[1..], sep)
  {
    SeqAssoc(sep, cs[0], Join(cs[1..], sep), "\n");
  }

  /** The continuation lines of a field, then its final LF. */
  lemma {:induction false} ContinuationLines(x: string, e: seq<string>, cs: seq<string>)
    requires |x| > 0 && x[|x| - 1] != '\n'
    requires forall i :: 0 <= i < |cs| ==> |cs[i]| > 0 && IsWsp(cs[i][0]) && NoLf(cs[i])
    ensures Run(Reader(x, x[|x| - 1], e, true), Join(cs, "\n") + "\n")
         == Reader(x + Join(cs, "\r\n") + "\n", '\n', e, true)
    decreases |cs|
  {
    var r := Reader(x, x[|x| - 1], e, true);
    if |cs| == 0 {
      assert Run(r, "\n") == Step(r, '\n');
      assert x + Join(cs, "\r\n") == x;
    } else {
      var c := cs[0];
      var tail := Join(cs[1..], "\n") + "\n";
      var r1 := Reader(x + "\n", '\n', e, true);
      assert Run(r, "\n") == r1 by {
        assert Run(r, "\n") == Step(r, '\n');
      }
      var x' := x + "\r\n" + c;
      assert Run(r, Join(cs, "\n") + "\n") == Run(Run(r1, c), tail) by {
        JoinCons(cs, "\n");
        RunAppend(r, "\n", c + tail);
        RunAppend(r1, c, tail);
      }
      assert Run(r1, c) == Reader(x', x'[|x'| - 1], e, true) by {
        ContinuationLine(x, e, c);
      }
      ContinuationLines(x', e, cs[1..]);
      assert x' + Join(cs[1..], "\r\n") == x + Join(cs, "\r\n") by {
        JoinCons(cs, "\r\n");
        SeqAssoc(x, "\r\n", c, Join(cs[1..], "\r\n"));
        SeqAssoc(x, "\r\n" + c, Join(cs[1..], "\r\n"), []);
      }
    }
  }

  /** The first line of a field, read from the start or after a pending header. */
  lemma FirstLine(r: Reader, s: string)
    requires Inv(r) && r.inHeader && (r.last == '\n' || r.buf == [])
    requires |s| > 0 && !IsWsp(s[0]) && NoLf(s)
    ensures Run(r, s)
         == Reader(s, s[|s| - 1], r.emitted + (if r.last == '\n' then [Flush(r.buf)] else []), true)
  {
    var e := r.emitted + (if r.last == '\n' then [Flush(r.buf)] else []);
    var r1 := Step(r, s[0]);
    assert r1 == Reader([s[0]], s[0], e, true);
    RunNoLf(r1, s[1..]);
    assert [s[0]] + s[1..] == s;
    if |s| > 1 {
      assert s[1..][|s[1..]| - 1] == s[|s| - 1];
    }
  }

  /** Reading one field from the start, or after a pending header. */
  lemma FieldFrom(r: Reader, fs: seq<Field>, i: nat)
    requires Inv(r) && r.inHeader && (r.last == '\n' || r.buf == [])
    requires i < |fs| && AllWellFormed(fs)
    ensures Run(r, Wire(fs[i]) + "\n")
         == Reader(Render(fs[i]) + "\n", '\n', r.emitted + (if r.last == '\n' then [Flush(r.buf)] else []), true)
  {
    var f := fs[i];
    var e := r.emitted + (if r.last == '\n' then [Flush(r.buf)] else []);
    assert Wire(f) + "\n" == f.first + (Join(f.conts, "\n") + "\n");
    RunAppend(r, f.first, Join(f.conts, "\n") + "\n");
    FirstLine(r, f.first);
    ContinuationLines(f.first, e, f.conts);
  }

  lemma RendersAppend(e: seq<string>, fs: seq<Field>)
    requires |fs| > 0
    ensures e + [Render(fs[0])] + Renders(fs[1..]) == e + Renders(fs)
  {
  }

  lemma SectionCons(fs: seq<Field>, body: string)
    requires |fs| > 0
    ensures Section(fs) + "\n" + body == (Wire(fs[0]) + "\n") + (Section(fs[1..]) + "\n" + body)
  {
    var a := Wire(fs[0]) + "\n";
    var t := Section(fs[1..]);
    assert Section(fs) == a + t;
    SeqAssoc(a, t, "\n", body);
  }

  lemma SeqAssoc(a: string, b: string, c: string, d: string)
    ensures (a + b) + c + d == a + (b + c + d)
  {
  }

  /** With the first field of `fs` pending: the other fields, the blank line
      and whatever follows it. */
  lemma {:induction false} SectionFrom(fs: seq<Field>, e: seq<string>, body: string)
    requires |fs| > 0 && AllWellFormed(fs)
    ensures Run(Reader(Render(fs[0]) + "\n", '\n', e, true), Section(fs[1..]) + "\n" + body)
         == Reader("\n", '\n', e + Renders(fs), false)
    decreases |fs|
  {
    var r := Reader(Render(fs[0]) + "\n", '\n', e, true);
    FlushRendered(fs, 0);
    RendersAppend(e, fs);
    if |fs| == 1 {
      assert Section(fs[1..]) + "\n" + body == "\n" + body;
      var r1 := Step(r, '\n');
      assert r1 == Reader("\n", '\n', e + [Render(fs[0])], false);
      assert Run(r, "\n" + body) == Run(r1, body);
    } else {
      var rest := fs[1..];
      assert AllWellFormed(rest);
      SectionCons(rest, body);
      RunAppend(r, Wire(rest[0]) + "\n", Section(rest[1..]) + "\n" + body);
      FieldFrom(r, rest, 0);
      SectionFrom(rest, e + [Render(fs[0])], body);
    }
  }

  lemma SectionSplit(fs: seq<Field>, body: string)
    requires |fs| > 0
    ensures Run(Start, Section(fs) + "\n" + body)
         == Run(Run(Start, Wire(fs[0]) + "\n"), Section(fs[1..]) + "\n" + body)
  {
    var rest := Section(fs[1..]) + "\n" + body;
    assert Section(fs) + "\n" + body == (Wire(fs[0]) + "\n") + rest;
    RunAppend(Start, Wire(fs[0]) + "\n", rest);
  }

  /** A non-empty section of well-formed fields, its blank line and any body:
      exactly one line per field is handed on, its folds ended by CR LF, and
      nothing of the body is read. */
  lemma {:induction false} SectionRoundTrip(fs: seq<Field>, body: string)
    requires |fs| > 0 && AllWellFormed(fs)
    ensures HeaderLines(Section(fs) + "\n" + body) == Renders(fs)
  {
    SectionSplit(fs, body);
    FieldFrom(Start, fs, 0);
    SectionFrom(fs, [], body);
  }
}

/** Worked inputs for the header reader. */
module HeaderReaderExamples {
  import opened CStrings
  import opened HeaderReader

  const Subject := Field("Subject: a", ["\tb"])

  lemma SubjectWellFormed()
    ensures WellFormed(Subject)
    ensures Wire(Subject) == "Subject: a\n\tb"
    ensures Render(Subject) == "Subject: a\r\n\tb"
  {
    assert Join(["\tb"], "\n") == "\n\tb";
    assert Join(["\tb"], "\r\n") == "\r\n\tb";
  }

  /** A folded Subject: one line handed on, the fold ended by CR LF. */
  lemma FoldedSubject()
    ensures HeaderLines("Subject: a\n\tb\n\n") == ["Subject: a\r\n\tb"]
  {
    SubjectWellFormed();
    SectionRoundTrip([Subject], "");
    assert Section([Subject]) + "\n" + "" == "Subject: a\n\tb\n\n";
  }

  /** A one-line header section, `Hi`, and its blank line. */
  const HiSection: string := "Hi\n\n"

  lemma HiLines()
    ensures HeaderLines(HiSection) == ["Hi"]
  {
    var hi := Field("Hi", []);
    assert WellFormed(hi) && Render(hi) == "Hi";
    SectionRoundTrip([hi], "");
    assert Section([hi]) + "\n" + "" == HiSection;
  }

  /** A message whose header section is empty: its blank line is handed on
      as an empty header, and the body after it, `Hi` and a blank line, is
      read as headers. */
  lemma BodyReadAsHeaders()
    ensures HeaderLines("\n" + HiSection) == ["", "Hi"]
  {
    HiLines();
    LeadingBlankLineReadsOn(HiSection);
  }

  /** A header continued on a final line without LF is lost entirely. */
  lemma ContinuedLastLineLost()
    ensures HeaderLines("A: x\n b") == []
  {
    RunNoLf(Start, "A: x");
    assert Run(Start, "A: x\n") == Run(Run(Start, "A: x"), "\n") by {
      RunAppend(Start, "A: x", "\n");
    }
    UnterminatedFieldLost("A: x\n", " b");
    assert "A: x\n" + " b" == "A: x\n b";
  }

  /** A message that starts with a blank line has one empty header line. */
  lemma LeadingBlankLine()
    ensures HeaderLines("\n\n") == [""]
  {
    var r1 := Step(Start, '\n');
    assert r1 == Reader("\n", '\n', [], true);
    var r2 := Step(r1, '\n');
    assert Flush("\n") == "";
    assert r2 == Reader("\n", '\n', [""], false);
    assert Run(Start, "\n\n") == r2;
  }
}
