/** The header store of smailgun.c, `header_save` (smailgun.c:270-333).

    The C code keeps the stored headers in a linked list reached through a
    tail pointer (`ht`) and three global flags; here the list is an
    append-only sequence threaded through a state record. The source never
    points `ht` at `headers`, so `HeaderSave` is the store as that
    assignment would set it up, and `HeaderSaveAsWritten` is the store
    through the pointer as it is. With `-t`, the text after
    `To:` goes to `rcpt_parse`; since `rcpt_parse` no longer calls
    `rcpt_save`, the store records that text, and what `rcpt_parse` makes of
    it is `Recipients.RcptParse`. */
module HeaderStore {
  import opened CStrings

  datatype Store = Store(
    headers: seq<string>,   // stored header lines, oldest first
    haveFrom: bool,
    haveTo: bool,
    haveDate: bool,
    toTexts: seq<string>    // with -t: the text of each To: line after its prefix
  )

  const Empty: Store := Store([], false, false, false, [])

  predicate IsFrom(line: string) { HasPrefixCI(line, "From:") }
  predicate IsTo(line: string) { HasPrefixCI(line, "To:") }
  predicate IsDate(line: string) { HasPrefixCI(line, "Date:") }
  predicate IsBcc(line: string) { HasPrefixCI(line, "Bcc:") }

  /** The empty-From test reads the byte at offset 6 of the copy, which lies
      past the terminator of a five-byte `From:` line; that call is outside
      the model. */
  predicate Readable(line: string) {
    !(IsFrom(line) && |line| == 5)
  }

  /** A `From:` line exactly six bytes long counts as an empty From. */
  predicate EmptyFrom(line: string) {
    IsFrom(line) && |line| == 6
  }

  /** `header_save(line)` under `minus_t`. */
  function HeaderSave(st: Store, minusT: bool, line: string): (st': Store)
    requires NoNul(line) && Readable(line)
    // An empty From leaves everything as it was.
    ensures EmptyFrom(line) ==> st' == st
    // The store only ever grows at its tail, by this very line.
    ensures st'.headers == st.headers || st'.headers == st.headers + [line]
    ensures st'.headers == st.headers <==> EmptyFrom(line) || (minusT && IsBcc(line) && !IsTo(line))
    // Each flag is raised by its own kind of line, and never lowered.
    ensures st'.haveFrom <==> st.haveFrom || (IsFrom(line) && !EmptyFrom(line))
    ensures st'.haveTo <==> st.haveTo || IsTo(line)
    ensures st'.haveDate <==> st.haveDate || (IsDate(line) && !IsFrom(line) && !IsTo(line))
    // Only a To: line under -t hands text on, namely what follows `To:`.
    ensures minusT && IsTo(line) ==> st'.toTexts == st.toTexts + [line[3..]]
    ensures !(minusT && IsTo(line)) ==> st'.toTexts == st.toTexts
  {
    PrefixesDisjoint(line);
    if EmptyFrom(line) then st
    else
      var flagged :=
        if IsFrom(line) then st.(haveFrom := true)
        else if IsTo(line) then st.(haveTo := true)
        else if IsDate(line) then st.(haveDate := true)
        else st;
      if minusT && IsTo(line) then
        flagged.(headers := flagged.headers + [line], toTexts := flagged.toTexts + [line[3..]])
      else if minusT && IsBcc(line) then
        // The Bcc line is retracted from the list.
        flagged
      else
        flagged.(headers := flagged.headers + [line])
  }

  /** The prefixes are told apart by their first letter, so a line is at most
      one of From:, To:, Date:, Bcc:. */
  lemma PrefixesDisjoint(line: string)
    ensures !(IsFrom(line) && IsTo(line))
    ensures !(IsFrom(line) && IsBcc(line))
    ensures !(IsTo(line) && IsBcc(line))
    ensures IsDate(line) ==> !IsFrom(line) && !IsTo(line) && !IsBcc(line)
  {
    if |line| > 0 {
      assert "From:"[0] == 'F' && "To:"[0] == 'T' && "Bcc:"[0] == 'B' && "Date:"[0] == 'D';
      assert Lower('F') == 'f' && Lower('T') == 't' && Lower('B') == 'b' && Lower('D') == 'd';
    }
  }

  predicate Saveable(lines: seq<string>) {
    forall i :: 0 <= i < |lines| ==> NoNul(lines[i]) && Readable(lines[i])
  }

  /** `header_save` applied to each line in turn. */
  function SaveLines(st: Store, minusT: bool, lines: seq<string>): (st': Store)
    requires Saveable(lines)
    ensures st.headers <= st'.headers
    decreases |lines|
  {
    if |lines| == 0 then st
    else SaveLines(HeaderSave(st, minusT, lines[0]), minusT, lines[1..])
  }

  /** `header_save` as written, through the tail pointer `ht`: `linked` says
      whether `ht` points at a node. The copy is stored through `ht` before
      any test (smailgun.c:282), and the source never points `ht` at
      `headers` (smailgun.c:93), so while it is NULL every line meets a write
      through NULL, which has no defined result (`None`). Once it points at a
      node it keeps doing so: it only ever moves on to a freshly allocated
      `next` (smailgun.c:326-331). `HeaderSave` is the store as
      `ht = &headers` would set it up. */
  function HeaderSaveAsWritten(st: Store, linked: bool, minusT: bool, line: string): (r: Option<Store>)
    requires NoNul(line) && Readable(line)
    ensures r.None? <==> !linked
    ensures r.Some? ==> r.value == HeaderSave(st, minusT, line)
  {
    if linked then Some(HeaderSave(st, minusT, line)) else None
  }

  /** `header_save` as written applied to each line in turn; after a line has
      been saved, `ht` points at a node. */
  function SaveLinesAsWritten(st: Store, linked: bool, minusT: bool, lines: seq<string>): Option<Store>
    requires Saveable(lines)
    decreases |lines|
  {
    if |lines| == 0 then Some(st)
    else match HeaderSaveAsWritten(st, linked, minusT, lines[0])
      case None => None
      case Some(st') => SaveLinesAsWritten(st', true, minusT, lines[1..])
  }

  /** With `ht` pointing at a node, the as-written store is `SaveLines`;
      from the program's start, with `ht` NULL, any line at all is a write
      through NULL, and only a section with no lines has a defined result. */
  lemma {:induction false} SaveLinesLinked(st: Store, minusT: bool, lines: seq<string>)
    requires Saveable(lines)
    ensures SaveLinesAsWritten(st, true, minusT, lines) == Some(SaveLines(st, minusT, lines))
    ensures SaveLinesAsWritten(st, false, minusT, lines).None? <==> |lines| > 0
    decreases |lines|
  {
    if |lines| > 0 {
      SaveLinesLinked(HeaderSave(st, minusT, lines[0]), minusT, lines[1..]);
    }
  }

  // ---------------------------------------------------------------------------
  // Independent descriptions of what the store ends up holding.

  /** Whether a line is kept in the list. */
  predicate Kept(line: string, minusT: bool) {
    !EmptyFrom(line) && !(minusT && IsBcc(line))
  }

  /** The lines kept, in their original order. */
  function KeptLines(lines: seq<string>, minusT: bool): seq<string> {
    if |lines| == 0 then []
    else (if Kept(lines[0], minusT) then [lines[0]] else []) + KeptLines(lines[1..], minusT)
  }

  /** The text after `To:` of each To: line, in order. */
  function ToTexts(lines: seq<string>): seq<string> {
    if |lines| == 0 then []
    else (if IsTo(lines[0]) then [lines[0][3..]] else []) + ToTexts(lines[1..])
  }

  lemma AppendAssoc(a: seq<string>, b: seq<string>, c: seq<string>)
    ensures a + b + c == a + (b + c)
  {
  }

  lemma {:induction false} SaveLinesHeaders(st: Store, minusT: bool, lines: seq<string>)
    requires Saveable(lines)
    ensures SaveLines(st, minusT, lines).headers == st.headers + KeptLines(lines, minusT)
    decreases |lines|
  {
    if |lines| > 0 {
      var st1 := HeaderSave(st, minusT, lines[0]);
      var head := if Kept(lines[0], minusT) then [lines[0]] else [];
      assert st1.headers == st.headers + head by {
        PrefixesDisjoint(lines[0]);
      }
      SaveLinesHeaders(st1, minusT, lines[1..]);
      assert KeptLines(lines, minusT) == head + KeptLines(lines[1..], minusT);
      AppendAssoc(st.headers, head, KeptLines(lines[1..], minusT));
    }
  }

  /** The To text a single line contributes, if any. */
  function ToText(line: string, minusT: bool): seq<string> {
    if minusT && IsTo(line) then [line[3..]] else []
  }

  lemma ToTextsCons(lines: seq<string>, minusT: bool)
    requires |lines| > 0
    ensures (if minusT then ToTexts(lines) else [])
         == ToText(lines[0], minusT) + (if minusT then ToTexts(lines[1..]) else [])
  {
  }

  lemma {:induction false} SaveLinesToTexts(st: Store, minusT: bool, lines: seq<string>)
    requires Saveable(lines)
    ensures SaveLines(st, minusT, lines).toTexts
         == st.toTexts + (if minusT then ToTexts(lines) else [])
    decreases |lines|
  {
    if |lines| > 0 {
      var st1 := HeaderSave(st, minusT, lines[0]);
      var head := ToText(lines[0], minusT);
      var more := if minusT then ToTexts(lines[1..]) else [];
      assert st1.toTexts == st.toTexts + head;
      SaveLinesToTexts(st1, minusT, lines[1..]);
      ToTextsCons(lines, minusT);
      AppendAssoc(st.toTexts, head, more);
    }
  }

  /** Reading a whole header section: exactly the kept lines are stored, in
      order, and under -t exactly the To: texts go to `rcpt_parse`. */
  lemma StoredLines(minusT: bool, lines: seq<string>)
    requires Saveable(lines)
    ensures SaveLines(Empty, minusT, lines).headers == KeptLines(lines, minusT)
    ensures SaveLines(Empty, minusT, lines).toTexts == (if minusT then ToTexts(lines) else [])
  {
    SaveLinesHeaders(Empty, minusT, lines);
    SaveLinesToTexts(Empty, minusT, lines);
  }

  lemma {:induction false} KeptLinesMembers(lines: seq<string>, minusT: bool)
    ensures forall h :: h in KeptLines(lines, minusT) <==> h in lines && Kept(h, minusT)
    decreases |lines|
  {
    if |lines| > 0 {
      KeptLinesMembers(lines[1..], minusT);
      assert forall h :: h in lines <==> h == lines[0] || h in lines[1..];
    }
  }

  /** Under -t no Bcc line is ever stored, and every other line except an
      empty From is. */
  lemma BccNeverStored(lines: seq<string>)
    requires Saveable(lines)
    ensures forall h :: h in SaveLines(Empty, true, lines).headers
                    <==> h in lines && !IsBcc(h) && !EmptyFrom(h)
  {
    StoredLines(true, lines);
    KeptLinesMembers(lines, true);
  }

  lemma {:induction false} SaveLinesFlags(st: Store, minusT: bool, lines: seq<string>)
    requires Saveable(lines)
    ensures SaveLines(st, minusT, lines).haveFrom
        <==> st.haveFrom || exists i :: 0 <= i < |lines| && IsFrom(lines[i]) && !EmptyFrom(lines[i])
    ensures SaveLines(st, minusT, lines).haveTo
        <==> st.haveTo || exists i :: 0 <= i < |lines| && IsTo(lines[i])
    decreases |lines|
  {
    if |lines| > 0 {
      PrefixesDisjoint(lines[0]);
      var st1 := HeaderSave(st, minusT, lines[0]);
      SaveLinesFlags(st1, minusT, lines[1..]);
      assert forall i :: 1 <= i < |lines| ==> lines[i] == lines[1..][i - 1];
      if exists i :: 1 <= i < |lines| && IsFrom(lines[i]) && !EmptyFrom(lines[i]) {
        var i :| 1 <= i < |lines| && IsFrom(lines[i]) && !EmptyFrom(lines[i]);
        assert IsFrom(lines[1..][i - 1]);
      }
      if exists i :: 1 <= i < |lines| && IsTo(lines[i]) {
        var i :| 1 <= i < |lines| && IsTo(lines[i]);
        assert IsTo(lines[1..][i - 1]);
      }
    }
  }

  lemma {:induction false} SaveLinesDate(st: Store, minusT: bool, lines: seq<string>)
    requires Saveable(lines)
    ensures SaveLines(st, minusT, lines).haveDate
        <==> st.haveDate || exists i :: 0 <= i < |lines| && IsDate(lines[i])
    decreases |lines|
  {
    if |lines| > 0 {
      PrefixesDisjoint(lines[0]);
      var st1 := HeaderSave(st, minusT, lines[0]);
      SaveLinesDate(st1, minusT, lines[1..]);
      assert forall i :: 1 <= i < |lines| ==> lines[i] == lines[1..][i - 1];
      if exists i :: 1 <= i < |lines| && IsDate(lines[i]) {
        var i :| 1 <= i < |lines| && IsDate(lines[i]);
        assert IsDate(lines[1..][i - 1]);
      }
    }
  }

  /** `have_from` ends up set exactly when some From: line is not the empty
      six-byte one; `have_to` exactly when some line is a To: line;
      `have_date` exactly when some line is a Date: line. */
  lemma HaveFlags(minusT: bool, lines: seq<string>)
    requires Saveable(lines)
    ensures SaveLines(Empty, minusT, lines).haveFrom
        <==> exists i :: 0 <= i < |lines| && IsFrom(lines[i]) && !EmptyFrom(lines[i])
    ensures SaveLines(Empty, minusT, lines).haveTo
        <==> exists i :: 0 <= i < |lines| && IsTo(lines[i])
    ensures SaveLines(Empty, minusT, lines).haveDate
        <==> exists i :: 0 <= i < |lines| && IsDate(lines[i])
  {
    SaveLinesFlags(Empty, minusT, lines);
    SaveLinesDate(Empty, minusT, lines);
  }
}
