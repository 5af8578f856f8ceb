/** Reading a message's header section: `header_parse` hands each completed
    line to `header_save` (smailgun.c:338-422 calling smailgun.c:270-333). */
module Message {
  import opened CStrings
  import opened HeaderReader
  import opened HeaderStore

  /** Every line the reader hands on can be stored; the only exception is a
      five-byte `From:` line, outside the model. */
  predicate ReadableInput(input: string) {
    forall i :: 0 <= i < |HeaderLines(input)| ==> Readable(HeaderLines(input)[i])
  }

  /** The store after the header section of `input` has been read. */
  function ReadHeaders(input: string, minusT: bool): (st: Store)
    requires ReadableInput(input)
    ensures st.headers == KeptLines(HeaderLines(input), minusT)
    ensures st.toTexts == (if minusT then ToTexts(HeaderLines(input)) else [])
  {
    StoredLines(minusT, HeaderLines(input));
    SaveLines(Empty, minusT, HeaderLines(input))
  }

  /** The header section read as the source is written: `ht` is never
      pointed at `headers`, so the first line handed on is stored through
      NULL (smailgun.c:93, 282). The read has a defined result only for a
      section with no lines, and then nothing is stored. */
  function ReadHeadersAsWritten(input: string, minusT: bool): (r: Option<Store>)
    requires ReadableInput(input)
    ensures r.None? <==> |HeaderLines(input)| > 0
    ensures r.Some? ==> r.value == Empty
  {
    SaveLinesLinked(Empty, minusT, HeaderLines(input));
    SaveLinesAsWritten(Empty, false, minusT, HeaderLines(input))
  }

  /** With `ht = &headers` before the read, the as-written store is exactly
      `ReadHeaders`. */
  lemma InitializedRead(input: string, minusT: bool)
    requires ReadableInput(input)
    ensures SaveLinesAsWritten(Empty, true, minusT, HeaderLines(input)) == Some(ReadHeaders(input, minusT))
  {
    SaveLinesLinked(Empty, minusT, HeaderLines(input));
  }

  /** Every stored header is a C string whose every LF is part of a CR LF
      fold; under -t none of them is a Bcc line. */
  lemma StoredHeadersFolded(input: string, minusT: bool)
    requires ReadableInput(input)
    ensures forall i :: 0 <= i < |ReadHeaders(input, minusT).headers| ==>
      var h := ReadHeaders(input, minusT).headers[i];
      Folded(h) && NoNul(h) && !(minusT && IsBcc(h))
  {
    var lines := HeaderLines(input);
    KeptLinesMembers(lines, minusT);
    forall i | 0 <= i < |ReadHeaders(input, minusT).headers|
      ensures Folded(ReadHeaders(input, minusT).headers[i])
      ensures NoNul(ReadHeaders(input, minusT).headers[i])
      ensures !(minusT && IsBcc(ReadHeaders(input, minusT).headers[i]))
    {
      var h := ReadHeaders(input, minusT).headers[i];
      assert h in KeptLines(lines, minusT);
      assert h in lines && Kept(h, minusT);
      var j :| 0 <= j < |lines| && lines[j] == h;
    }
  }
}

/** A worked message under `-t`. */
module MessageExamples {
  import opened CStrings
  import opened HeaderReader
  import opened HeaderStore
  import opened Message
  import Recipients
  import RecipientExamples

  /** A header section with a To: and a Bcc: line and no body. */
  const Mail: string := "To: a@x\nBcc: b@x\n\n"

  const ToField := Field("To: a@x", [])
  const BccField := Field("Bcc: b@x", [])

  lemma FieldFacts()
    ensures WellFormed(ToField) && WellFormed(BccField)
    ensures Wire(ToField) == Render(ToField) == "To: a@x"
    ensures Wire(BccField) == Render(BccField) == "Bcc: b@x"
  {
    assert "To: a@x" + [] == "To: a@x";
    assert "Bcc: b@x" + [] == "Bcc: b@x";
  }

  lemma SectionText()
    ensures Section([ToField, BccField]) + "\n" + "" == Mail
  {
    FieldFacts();
    assert Section([BccField]) == "Bcc: b@x\n" by {
      assert [BccField][1..] == [];
    }
    assert [ToField, BccField][1..] == [BccField];
    assert Section([ToField, BccField]) == "To: a@x\n" + "Bcc: b@x\n";
  }

  lemma RendersList()
    ensures Renders([ToField, BccField]) == ["To: a@x", "Bcc: b@x"]
  {
    FieldFacts();
    assert [ToField, BccField][1..] == [BccField];
    assert [BccField][1..] == [];
    assert Renders([BccField]) == ["Bcc: b@x"];
    assert Renders([ToField, BccField]) == ["To: a@x"] + Renders([BccField]);
  }

  lemma Lines()
    ensures HeaderLines(Mail) == ["To: a@x", "Bcc: b@x"]
  {
    FieldFacts();
    SectionRoundTrip([ToField, BccField], "");
    SectionText();
    RendersList();
  }

  lemma Kinds()
    ensures IsTo("To: a@x") && !IsBcc("To: a@x") && !IsFrom("To: a@x")
    ensures IsBcc("Bcc: b@x") && !IsTo("Bcc: b@x") && !IsFrom("Bcc: b@x")
  {
    PrefixesDisjoint("To: a@x");
    PrefixesDisjoint("Bcc: b@x");
  }

  lemma ExampleSaveable()
    ensures Saveable(["To: a@x", "Bcc: b@x"])
  {
    assert |"To: a@x"| == 7 && |"Bcc: b@x"| == 8;
  }

  lemma ExampleKept()
    ensures KeptLines(["To: a@x", "Bcc: b@x"], true) == ["To: a@x"]
  {
    Kinds();
    var lines := ["To: a@x", "Bcc: b@x"];
    assert lines[1..] == ["Bcc: b@x"];
    assert KeptLines(lines[1..], true) == [] by {
      assert lines[1..][1..] == [];
    }
  }

  lemma ExampleToTexts()
    ensures ToTexts(["To: a@x", "Bcc: b@x"]) == [" a@x"]
  {
    Kinds();
    var lines := ["To: a@x", "Bcc: b@x"];
    assert lines[1..] == ["Bcc: b@x"];
    assert ToTexts(lines[1..]) == [] by {
      assert lines[1..][1..] == [];
    }
    assert "To: a@x"[3..] == " a@x";
  }

  lemma ParseOneAddress()
    ensures Recipients.RcptParse(" a@x") == ["a@x"]
  {
    RecipientExamples.NormalizeKeeps(" a@x");
    RecipientExamples.SingleToken(" a@x");
    assert LTrim(" a@x") == LTrim("a@x");
  }

  /** Under -t the Bcc line is dropped, the To line is kept, and its address
      text is what `rcpt_parse` splits (into `a@x`, by `ParseOneAddress`). */
  lemma ToAndBcc()
    ensures ReadableInput(Mail)
    ensures ReadHeaders(Mail, true).headers == ["To: a@x"]
    ensures ReadHeaders(Mail, true).toTexts == [" a@x"]
  {
    Lines();
    ExampleSaveable();
    ExampleKept();
    ExampleToTexts();
  }

  /** As the source is written, the worked message's first line is already
      stored through NULL; once `ht` is set up, it reads as `ToAndBcc` says. */
  lemma FirstLineThroughNull()
    ensures ReadableInput(Mail)
    ensures ReadHeadersAsWritten(Mail, true).None?
    ensures SaveLinesAsWritten(Empty, true, true, HeaderLines(Mail)).Some?
    ensures SaveLinesAsWritten(Empty, true, true, HeaderLines(Mail)).value.headers == ["To: a@x"]
  {
    ToAndBcc();
    Lines();
    InitializedRead(Mail, true);
  }
}
