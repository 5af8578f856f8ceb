/** The recipient splitter of smailgun.c: `rcpt_parse` cuts a To:-style value into
    address tokens, `rcpt_save` files one token into the recipient list.

    In the source the call from `rcpt_parse` to `rcpt_save` is commented out
    (smailgun.c:255), so the two are separate functions here and `RcptSplit`
    states their composition explicitly. */
module Recipients {
  import opened CStrings

  /** The bytes `rcpt_parse` turns into spaces before splitting. */
  predicate IsLineSpace(c: char) {
    c == '\t' || c == '\n' || c == '\r'
  }

  /** First pass of `rcpt_parse`: every TAB, LF and CR becomes a space. */
  function Normalize(s: string): (t: string)
    ensures |t| == |s|
    ensures forall i :: 0 <= i < |s| ==> !IsLineSpace(t[i])
    ensures forall i :: 0 <= i < |s| && !IsLineSpace(s[i]) ==> t[i] == s[i]
    ensures forall i :: 0 <= i < |s| && IsLineSpace(s[i]) ==> t[i] == ' '
  {
    seq(|s|, i requires 0 <= i < |s| => if IsLineSpace(s[i]) then ' ' else s[i])
  }

  /** The cutting loop of `rcpt_parse` at byte `k` of the normalized text `t`,
      with the current token starting at `start` and the quote toggle `inQ`
      as it was before byte `k`. */
  function ScanFrom(t: string, k: nat, start: nat, inQ: bool): (r: seq<string>)
    requires start <= k <= |t|
    ensures |r| > 0 <==> k < |t|
    decreases |t| - k
  {
    if k == |t| then []
    else
      var q := if t[k] == '"' then !inQ else inQ;
      if t[k] == ',' && !q then
        // A top-level comma: the token ends here, with its leading spaces skipped.
        [LTrim(t[start..k])] + ScanFrom(t, k + 1, k + 1, q)
      else if k + 1 == |t| then
        // Last byte: the final token runs to the end of the string.
        [LTrim(t[start..])]
      else
        ScanFrom(t, k + 1, start, q)
  }

  /** `rcpt_parse(str)` (smailgun.c:203-265): the tokens it hands on, in order. */
  function RcptParse(s: string): (r: seq<string>)
    requires NoNul(s)
    ensures |r| == 0 <==> |s| == 0
  {
    ScanFrom(Normalize(s), 0, 0, false)
  }

  // ---------------------------------------------------------------------------
  // An independent description of the same split: mark the top-level commas,
  // split at the marks, drop the empty piece after a final mark, trim each piece.

  datatype Sym = Ch(c: char) | Sep

  /** Number of double quotes in `s`. */
  function Quotes(s: string): nat {
    if |s| == 0 then 0 else (if s[0] == '"' then 1 else 0) + Quotes(s[1..])
  }

  /** Replaces each comma that lies outside double quotes by `Sep`; `inQ` says
      whether the text starts inside quotes. */
  function Mark(t: string, inQ: bool): (m: seq<Sym>)
    ensures |m| == |t|
  {
    if |t| == 0 then []
    else
      var q := if t[0] == '"' then !inQ else inQ;
      (if t[0] == ',' && !q then [Sep] else [Ch(t[0])]) + Mark(t[1..], q)
  }

  function CountSep(m: seq<Sym>): nat {
    if |m| == 0 then 0 else (if m[0] == Sep then 1 else 0) + CountSep(m[1..])
  }

  /** Splits at every `Sep`: n separators give n + 1 pieces. */
  function SplitSep(m: seq<Sym>): (segs: seq<string>)
    ensures |segs| == CountSep(m) + 1
  {
    if |m| == 0 then [[]]
    else
      var rest := SplitSep(m[1..]);
      match m[0]
      case Sep => [[]] + rest
      case Ch(c) => [[c] + rest[0]] + rest[1..]
  }

  /** The pieces that become tokens: none for empty text, and no empty piece
      after a final separator. */
  function Kept(m: seq<Sym>): (segs: seq<string>)
    ensures |segs| == CountSep(m) + (if |m| > 0 && m[|m| - 1] != Sep then 1 else 0)
  {
    var segs := SplitSep(m);
    if |m| == 0 || m[|m| - 1] == Sep then segs[..|segs| - 1] else segs
  }

  function TrimAll(segs: seq<string>): (r: seq<string>)
    ensures |r| == |segs|
    ensures forall i :: 0 <= i < |r| ==> r[i] == LTrim(segs[i])
  {
    if |segs| == 0 then [] else [LTrim(segs[0])] + TrimAll(segs[1..])
  }

  function SplitReference(s: string): seq<string> {
    TrimAll(Kept(Mark(Normalize(s), false)))
  }

  /** Number of commas of `s` outside double quotes. */
  function TopLevelCommas(s: string): nat {
    CountSep(Mark(Normalize(s), false))
  }

  /** True when the last byte of `s` is a comma outside double quotes. */
  predicate EndsInTopLevelComma(s: string) {
    var m := Mark(Normalize(s), false);
    |m| > 0 && m[|m| - 1] == Sep
  }

  /** A comma is a separator exactly when an even number of double quotes
      precede it (taking the starting state `inQ` into account): every `"`
      flips the toggle, with no backslash escapes. */
  lemma {:induction false} MarkSeparators(t: string, inQ: bool, i: nat)
    requires i < |t|
    ensures Mark(t, inQ)[i] == Sep <==> t[i] == ',' && inQ == (Quotes(t[..i]) % 2 == 1)
    ensures Mark(t, inQ)[i] != Sep ==> Mark(t, inQ)[i] == Ch(t[i])
  {
    var q := if t[0] == '"' then !inQ else inQ;
    if i == 0 {
      assert t[..0] == [];
    } else {
      MarkSeparators(t[1..], q, i - 1);
      assert t[..i][1..] == t[1..][..i - 1];
      assert Mark(t, inQ)[i] == Mark(t[1..], q)[i - 1];
    }
  }

  /** Glues the pending token text `pre` onto the first piece. */
  function Glue(pre: string, segs: seq<string>): (r: seq<string>)
    requires |segs| > 0
    ensures |r| == |segs|
  {
    [pre + segs[0]] + segs[1..]
  }

  /** Drops the final piece when the marks end in a separator or are empty. */
  function DropLast(m: seq<Sym>, segs: seq<string>): seq<string>
    requires |segs| > 0
  {
    if |m| == 0 || m[|m| - 1] == Sep then segs[..|segs| - 1] else segs
  }

  /** What the scan still produces from byte `k` on, by the reference split:
      the pending token text `pre` is glued to the first remaining piece. */
  function RestReference(pre: string, m: seq<Sym>): seq<string> {
    TrimAll(DropLast(m, Glue(pre, SplitSep(m))))
  }

  lemma TrimAllCons(x: string, xs: seq<string>)
    ensures TrimAll([x] + xs) == [LTrim(x)] + TrimAll(xs)
  {
  }

  lemma SplitSepCons(x: Sym, m: seq<Sym>)
    ensures x == Sep ==> SplitSep([x] + m) == [[]] + SplitSep(m)
    ensures x.Ch? ==> SplitSep([x] + m) == Glue([x.c], SplitSep(m))
  {
    assert ([x] + m)[1..] == m;
  }

  lemma RestReferenceEnd()
    ensures RestReference([], []) == []
  {
  }

  lemma RestReferenceSep(pre: string, m: seq<Sym>)
    ensures RestReference(pre, [Sep] + m) == [LTrim(pre)] + RestReference([], m)
  {
    var rest := SplitSep(m);
    SplitSepCons(Sep, m);
    var m2 := [Sep] + m;
    assert ([[]] + rest)[1..] == rest;
    assert pre + [] == pre;
    assert Glue(pre, [[]] + rest) == [pre] + rest;
    assert [] + rest[0] == rest[0];
    assert [rest[0]] + rest[1..] == rest;
    assert Glue([], rest) == rest;
    if |m| > 0 {
      assert m2[|m2| - 1] == m[|m| - 1];
      assert DropLast(m2, [pre] + rest) == [pre] + DropLast(m, rest);
    } else {
      assert DropLast(m2, [pre] + rest) == [pre];
    }
    TrimAllCons(pre, DropLast(m, rest));
  }

  lemma RestReferenceLast(pre: string, c: char)
    ensures RestReference(pre, [Ch(c)]) == [LTrim(pre + [c])]
  {
    SplitSepCons(Ch(c), []);
    assert [Ch(c)] + [] == [Ch(c)];
    assert SplitSep([]) == [[]];
    assert [c] + [] == [c];
    assert Glue([c], [[]]) == [[c]];
    assert SplitSep([Ch(c)]) == [[c]];
    assert Glue(pre, [[c]]) == [pre + [c]];
  }

  lemma RestReferenceCh(pre: string, c: char, m: seq<Sym>)
    requires |m| > 0
    ensures RestReference(pre, [Ch(c)] + m) == RestReference(pre + [c], m)
  {
    var rest := SplitSep(m);
    SplitSepCons(Ch(c), m);
    var m2 := [Ch(c)] + m;
    assert m2[|m2| - 1] == m[|m| - 1];
    assert pre + ([c] + rest[0]) == (pre + [c]) + rest[0];
    assert Glue(pre, Glue([c], rest)) == Glue(pre + [c], rest);
  }

  /** One byte of marking: the toggle after byte `k` and the mark it gets. */
  lemma MarkStep(t: string, k: nat, inQ: bool)
    requires k < |t|
    ensures var q := if t[k] == '"' then !inQ else inQ;
      Mark(t[k..], inQ) == (if t[k] == ',' && !q then [Sep] else [Ch(t[k])]) + Mark(t[k + 1..], q)
  {
    assert t[k..][1..] == t[k + 1..];
  }

  lemma {:induction false} ScanStepSep(t: string, k: nat, start: nat, inQ: bool)
    requires start <= k < |t|
    requires t[k] == ',' && !inQ
    ensures ScanFrom(t, k, start, inQ) == RestReference(t[start..k], Mark(t[k..], inQ))
    decreases |t| - k, 0
  {
    ScanFromMatchesReference(t, k + 1, k + 1, inQ);
    assert t[k + 1..k + 1] == [];
    MarkStep(t, k, inQ);
    RestReferenceSep(t[start..k], Mark(t[k + 1..], inQ));
  }

  lemma ScanStepLast(t: string, k: nat, start: nat, inQ: bool)
    requires start <= k && k + 1 == |t|
    requires !(t[k] == ',' && !inQ)
    ensures ScanFrom(t, k, start, inQ) == RestReference(t[start..k], Mark(t[k..], inQ))
  {
    MarkStep(t, k, inQ);
    var q := if t[k] == '"' then !inQ else inQ;
    assert Mark(t[k + 1..], q) == [] by { assert t[k + 1..] == []; }
    assert Mark(t[k..], inQ) == [Ch(t[k])];
    assert t[start..] == t[start..k] + [t[k]];
    RestReferenceLast(t[start..k], t[k]);
  }

  lemma {:induction false} ScanStepCh(t: string, k: nat, start: nat, inQ: bool)
    requires start <= k && k + 1 < |t|
    requires !(t[k] == ',' && !inQ)
    ensures ScanFrom(t, k, start, inQ) == RestReference(t[start..k], Mark(t[k..], inQ))
    decreases |t| - k, 0
  {
    var q := if t[k] == '"' then !inQ else inQ;
    var pre := t[start..k];
    var m := Mark(t[k + 1..], q);
    assert ScanFrom(t, k, start, inQ) == ScanFrom(t, k + 1, start, q);
    var pre' := t[start..k + 1];
    assert pre' == pre + [t[k]];
    assert ScanFrom(t, k + 1, start, q) == RestReference(pre', m) by {
      ScanFromMatchesReference(t, k + 1, start, q);
    }
    assert RestReference(pre, Mark(t[k..], inQ)) == RestReference(pre', m) by {
      MarkStep(t, k, inQ);
      RestReferenceCh(pre, t[k], m);
    }
  }

  lemma {:induction false} ScanFromMatchesReference(t: string, k: nat, start: nat, inQ: bool)
    requires start <= k <= |t|
    requires k < |t| || start == k
    ensures ScanFrom(t, k, start, inQ) == RestReference(t[start..k], Mark(t[k..], inQ))
    decreases |t| - k, 1
  {
    if k == |t| {
      assert t[k..] == [];
      assert t[start..k] == [];
      RestReferenceEnd();
    } else if t[k] == ',' && !inQ {
      ScanStepSep(t, k, start, inQ);
    } else if k + 1 == |t| {
      ScanStepLast(t, k, start, inQ);
    } else {
      ScanStepCh(t, k, start, inQ);
    }
  }

  /** `rcpt_parse` agrees with the reference split: its tokens are the pieces
      between top-level commas, leading spaces trimmed, with nothing emitted
      for empty text or after a final top-level comma. */
  lemma RcptParseMatchesReference(s: string)
    requires NoNul(s)
    ensures RcptParse(s) == SplitReference(s)
  {
    var t := Normalize(s);
    var m := Mark(t, false);
    ScanFromMatchesReference(t, 0, 0, false);
    assert t[0..] == t;
    assert t[0..0] == [];
    var segs := SplitSep(m);
    assert [] + segs[0] == segs[0];
    assert [segs[0]] + segs[1..] == segs;
    assert Glue([], segs) == segs;
  }

  /** One token per top-level comma, plus one more exactly when the text is
      non-empty and does not end in a top-level comma. Empty tokens count. */
  lemma RcptParseCount(s: string)
    requires NoNul(s)
    ensures |RcptParse(s)| ==
      TopLevelCommas(s) + (if |s| > 0 && !EndsInTopLevelComma(s) then 1 else 0)
  {
    RcptParseMatchesReference(s);
  }

  /** Every token has lost its leading white space and contains no TAB, LF or CR. */
  lemma RcptParseTokens(s: string)
    requires NoNul(s)
    ensures forall i :: 0 <= i < |RcptParse(s)| ==>
      var tok := RcptParse(s)[i];
      && (|tok| > 0 ==> !IsSpace(tok[0]))
      && forall j :: 0 <= j < |tok| ==> !IsLineSpace(tok[j])
  {
    RcptParseMatchesReference(s);
    var t := Normalize(s);
    var m := Mark(t, false);
    var segs := Kept(m);
    SegmentsFromText(m, t, false);
    forall i | 0 <= i < |RcptParse(s)|
      ensures |RcptParse(s)[i]| > 0 ==> !IsSpace(RcptParse(s)[i][0])
      ensures forall j :: 0 <= j < |RcptParse(s)[i]| ==> !IsLineSpace(RcptParse(s)[i][j])
    {
      assert segs[i] == SplitSep(m)[i];
      LTrimSpec(segs[i]);
    }
  }

  /** Every piece of the split consists of bytes of the text. */
  lemma {:induction false} SegmentsFromText(m: seq<Sym>, t: string, inQ: bool)
    requires m == Mark(t, inQ)
    requires forall j :: 0 <= j < |t| ==> !IsLineSpace(t[j])
    ensures forall i, j :: 0 <= i < |SplitSep(m)| && 0 <= j < |SplitSep(m)[i]| ==>
      !IsLineSpace(SplitSep(m)[i][j])
  {
    if |t| > 0 {
      var q := if t[0] == '"' then !inQ else inQ;
      assert m[1..] == Mark(t[1..], q);
      SegmentsFromText(m[1..], t[1..], q);
    }
  }

  // ---------------------------------------------------------------------------

  /** An address `rcpt_save` keeps: non-empty and not ending in `;` (the crude
      stand-in for a group terminator). */
  predicate Acceptable(str: string) {
    |str| > 0 && str[|str| - 1] != ';'
  }

  /** `rcpt_save(str)` (smailgun.c:164-198): appends one copy of `str` at the
      tail of the list, or leaves the list alone. The source reads `str[-1]`
      before its emptiness test when `str` is empty; here the empty test comes
      first. */
  function RcptSave(list: seq<string>, str: string): (r: seq<string>)
    requires NoNul(str)
    ensures list <= r && |r| <= |list| + 1
    ensures |r| == |list| + 1 <==> |str| > 0 && str[|str| - 1] != ';'
    ensures |r| == |list| + 1 ==> r[|list|] == str
  {
    if |str| == 0 then list
    else if str[|str| - 1] == ';' then list
    else list + [str]
  }

  /** `rcpt_save` in the order the source tests things: the byte before the
      terminator is read before the emptiness test. For an empty `str` that is
      the byte before the string; it lies inside the buffer unless `str`
      starts its allocation (`atStart`), and then the read has no defined
      result (`None`). Inside the buffer the byte read is never `;`, since
      `rcpt_parse` puts an empty token after a NUL or a skipped space.
      An accepted address is then stored through the tail pointer `rt`
      (smailgun.c:187). `linked` says whether `rt` points at a node; the
      source never points it at `rcpt_list` (smailgun.c:94), so the first
      accepted address is written through NULL, which has no defined result
      either. */
  function RcptSaveAsWritten(list: seq<string>, str: string, atStart: bool, linked: bool): (r: Option<seq<string>>)
    requires NoNul(str)
    ensures r.None? <==> (|str| == 0 && atStart) || (!linked && |str| > 0 && str[|str| - 1] != ';')
    ensures linked ==> (r.None? <==> |str| == 0 && atStart)
    ensures r.Some? ==> r.value == RcptSave(list, str)
  {
    if |str| == 0 then (if atStart then None else Some(list))
    else if str[|str| - 1] == ';' then Some(list)
    else if !linked then None
    else Some(list + [str])
  }

  /** `rcpt_save` applied to each token in turn. */
  function SaveAll(list: seq<string>, toks: seq<string>): seq<string>
    requires AllNoNul(toks)
    decreases |toks|
  {
    if |toks| == 0 then list else SaveAll(RcptSave(list, toks[0]), toks[1..])
  }

  /** The tokens that pass the filter, in order. */
  function Accepted(toks: seq<string>): (r: seq<string>)
    ensures forall i :: 0 <= i < |r| ==> Acceptable(r[i])
  {
    if |toks| == 0 then []
    else (if Acceptable(toks[0]) then [toks[0]] else []) + Accepted(toks[1..])
  }

  /** Saving a token sequence appends exactly the acceptable tokens, in their
      order, after what the list already held. */
  lemma {:induction false} SaveAllAppendsAccepted(list: seq<string>, toks: seq<string>)
    requires AllNoNul(toks)
    ensures SaveAll(list, toks) == list + Accepted(toks)
    decreases |toks|
  {
    if |toks| > 0 {
      SaveAllAppendsAccepted(RcptSave(list, toks[0]), toks[1..]);
    }
  }

  /** The splitter as the commented-out call `rcpt_save(addr_parse(r))` at
      smailgun.c:255 would link it, without `addr_parse`: every token of
      `rcpt_parse` offered to `rcpt_save`. */
  function RcptSplit(list: seq<string>, value: string): (r: seq<string>)
    requires NoNul(value)
    ensures r == list + Accepted(RcptParse(value))
    ensures list <= r
    ensures forall i :: |list| <= i < |r| ==> Acceptable(r[i]) && !IsSpace(r[i][0])
  {
    RcptParseNoNul(value);
    RcptParseTokens(value);
    SaveAllAppendsAccepted(list, RcptParse(value));
    AcceptedIsSubset(RcptParse(value));
    SaveAll(list, RcptParse(value))
  }

  lemma {:induction false} AcceptedIsSubset(toks: seq<string>)
    ensures forall i :: 0 <= i < |Accepted(toks)| ==> Accepted(toks)[i] in toks
  {
    if |toks| > 0 {
      AcceptedIsSubset(toks[1..]);
    }
  }

  /** Tokens are C strings again. */
  lemma RcptParseNoNul(s: string)
    requires NoNul(s)
    ensures AllNoNul(RcptParse(s))
  {
    RcptParseMatchesReference(s);
    var t := Normalize(s);
    var m := Mark(t, false);
    var segs := Kept(m);
    SegmentsNoNul(m, t, false);
    forall i | 0 <= i < |RcptParse(s)|
      ensures NoNul(RcptParse(s)[i])
    {
      assert segs[i] == SplitSep(m)[i];
      LTrimSpec(segs[i]);
    }
  }

  lemma {:induction false} SegmentsNoNul(m: seq<Sym>, t: string, inQ: bool)
    requires m == Mark(t, inQ)
    requires NoNul(t)
    ensures forall i :: 0 <= i < |SplitSep(m)| ==> NoNul(SplitSep(m)[i])
  {
    if |t| > 0 {
      var q := if t[0] == '"' then !inQ else inQ;
      assert m[1..] == Mark(t[1..], q);
      SegmentsNoNul(m[1..], t[1..], q);
    }
  }

  /** Bytes other than commas never end a token; they only move the quote
      toggle, once per double quote. */
  lemma {:induction false} ScanSkip(t: string, k: nat, e: nat, start: nat, inQ: bool)
    requires start <= k <= e < |t|
    requires forall j :: k <= j < e ==> t[j] != ','
    ensures ScanFrom(t, k, start, inQ) == ScanFrom(t, e, start, inQ != (Quotes(t[k..e]) % 2 == 1))
    decreases e - k
  {
    if k == e {
      assert t[k..e] == [];
    } else {
      var q := if t[k] == '"' then !inQ else inQ;
      ScanSkip(t, k + 1, e, start, q);
      assert t[k..e][1..] == t[k + 1..e];
    }
  }

  /** Inside double quotes commas do not cut: the scan runs to the next quote. */
  lemma {:induction false} ScanInQuotes(t: string, k: nat, e: nat, start: nat)
    requires start <= k <= e < |t|
    requires forall j :: k <= j < e ==> t[j] != '"'
    ensures ScanFrom(t, k, start, true) == ScanFrom(t, e, start, true)
    decreases e - k
  {
    if k < e {
      ScanInQuotes(t, k + 1, e, start);
    }
  }

  /** Text after the last comma becomes the final token, whatever the toggle. */
  lemma {:induction false} ScanNoComma(t: string, k: nat, start: nat, inQ: bool)
    requires start <= k < |t|
    requires forall j :: k <= j < |t| ==> t[j] != ','
    ensures ScanFrom(t, k, start, inQ) == [LTrim(t[start..])]
    decreases |t| - k
  {
    if k + 1 < |t| {
      var q := if t[k] == '"' then !inQ else inQ;
      ScanNoComma(t, k + 1, start, q);
    }
  }
}

/** Worked examples of the splitter, each an instance of a general lemma. */
module RecipientExamples {
  import opened CStrings
  import opened Recipients

  lemma NormalizeKeeps(s: string)
    requires forall i :: 0 <= i < |s| ==> !IsLineSpace(s[i])
    ensures Normalize(s) == s
  {
  }

  lemma {:induction false} NoQuotes(a: string)
    requires forall i :: 0 <= i < |a| ==> a[i] != '"'
    ensures Quotes(a) == 0
  {
    if |a| > 0 {
      NoQuotes(a[1..]);
    }
  }

  /** A quoted display name may hold commas: for text `"name" addr, rest`
      where only the display name holds commas, the split yields the quoted
      address and the rest. `e` is the closing quote, `p` the comma. */
  lemma QuotedDisplayName(s: string, e: nat, p: nat)
    requires 0 < e < p && p + 1 < |s|
    requires s[0] == '"' && s[e] == '"' && s[p] == ','
    requires forall j :: 0 <= j < |s| ==> !IsLineSpace(s[j]) && s[j] != NUL
    requires forall j :: 0 < j < e ==> s[j] != '"'
    requires forall j :: e < j < p ==> s[j] != '"' && s[j] != ','
    requires forall j :: p < j < |s| ==> s[j] != ','
    ensures NoNul(s)
    ensures RcptParse(s) == [LTrim(s[..p]), LTrim(s[p + 1..])]
  {
    NormalizeKeeps(s);
    assert Quotes(s[e + 1..p]) == 0 by {
      NoQuotes(s[e + 1..p]);
    }
    calc {
      RcptParse(s);
      ScanFrom(s, 0, 0, false);
      // Opening quote.
      ScanFrom(s, 1, 0, true);
      { ScanInQuotes(s, 1, e, 0); }  // the display name, commas included
      ScanFrom(s, e, 0, true);
      // Closing quote.
      ScanFrom(s, e + 1, 0, false);
      { ScanSkip(s, e + 1, p, 0, false); }  // no commas, no quotes
      ScanFrom(s, p, 0, false);
      // The top-level comma.
      { assert s[0..p] == s[..p]; }
      [LTrim(s[..p])] + ScanFrom(s, p + 1, p + 1, false);
      { ScanNoComma(s, p + 1, p + 1, false); }
      [LTrim(s[..p]), LTrim(s[p + 1..])];
    }
  }

  const QuotedExample: string := "\"Doe, Jane\" <jane@x>, bob@y"

  lemma QuotedExampleShape()
    ensures |QuotedExample| == 27
    ensures QuotedExample[0] == '"' && QuotedExample[10] == '"' && QuotedExample[20] == ','
    ensures forall j :: 0 <= j < 27 ==> !IsLineSpace(QuotedExample[j]) && QuotedExample[j] != NUL
    ensures forall j :: 0 < j < 10 ==> QuotedExample[j] != '"'
    ensures forall j :: 10 < j < 20 ==> QuotedExample[j] != '"' && QuotedExample[j] != ','
    ensures forall j :: 20 < j < 27 ==> QuotedExample[j] != ','
  {
    var s := "\"Doe, Jane\" <jane@x>, bob@y";
    forall j | 0 <= j < 27
      ensures !IsLineSpace(s[j]) && s[j] != NUL
      ensures 0 < j < 10 ==> s[j] != '"'
      ensures 10 < j < 20 ==> s[j] != '"' && s[j] != ','
      ensures 20 < j ==> s[j] != ','
    {
    }
  }

  lemma QuotedExamplePieces()
    ensures QuotedExample[..20] == "\"Doe, Jane\" <jane@x>"
    ensures QuotedExample[21..] == " bob@y"
  {
  }

  /** The example `"Doe, Jane" <jane@x>, bob@y`. */
  lemma QuotedComma()
    ensures RcptParse(QuotedExample) == ["\"Doe, Jane\" <jane@x>", "bob@y"]
  {
    QuotedExampleShape();
    QuotedDisplayName(QuotedExample, 10, 20);
    QuotedExamplePieces();
    assert LTrim(" bob@y") == "bob@y";
  }

  /** Empty tokens between adjacent commas are still handed on by `rcpt_parse`;
      only `rcpt_save` drops them. */
  lemma EmptyTokenParsed()
    ensures RcptParse("a,,b") == ["a", "", "b"]
  {
    var s := "a,,b";
    NormalizeKeeps(s);
    assert ScanFrom(s, 0, 0, false) == ScanFrom(s, 1, 0, false);
    assert ScanFrom(s, 1, 0, false) == [LTrim(s[0..1])] + ScanFrom(s, 2, 2, false);
    assert ScanFrom(s, 2, 2, false) == [LTrim(s[2..2])] + ScanFrom(s, 3, 3, false);
    assert ScanFrom(s, 3, 3, false) == [LTrim(s[3..])];
    assert s[0..1] == "a" && s[2..2] == "" && s[3..] == "b";
  }

  lemma EmptyToken()
    ensures RcptParse("a,,b") == ["a", "", "b"]
    ensures RcptSplit([], "a,,b") == ["a", "b"]
  {
    EmptyTokenParsed();
    SaveAllAppendsAccepted([], ["a", "", "b"]);
    assert Accepted(["a", "", "b"]) == ["a", "b"] by {
      assert ["a", "", "b"][1..] == ["", "b"];
      assert ["", "b"][1..] == ["b"];
      assert ["b"][1..] == [];
    }
  }

  /** A leading comma gives `rcpt_parse` an empty first token, which starts
      the copy of the text. Offered to `rcpt_save` as written, it makes the
      read before the start of the copy; the empty token of `a,,b` instead
      follows the NUL written over the first comma, so that read stays inside
      the buffer. The corrected `RcptSave` leaves the list alone on both.
      The list is taken as set up (`linked`), so that only the read is at
      issue. */
  lemma EmptyTokenReachesSave()
    ensures RcptParse(",b") == ["", "b"]
    ensures RcptSaveAsWritten([], RcptParse(",b")[0], true, true).None?
    ensures RcptSave([], RcptParse(",b")[0]) == []
    ensures RcptSaveAsWritten(["a"], RcptParse("a,,b")[1], false, true) == Some(["a"])
  {
    var s := ",b";
    NormalizeKeeps(s);
    assert ScanFrom(s, 0, 0, false) == [LTrim(s[0..0])] + ScanFrom(s, 1, 1, false);
    assert ScanFrom(s, 1, 1, false) == [LTrim(s[1..])];
    assert s[0..0] == "" && s[1..] == "b";
    EmptyTokenParsed();
  }

  /** With `rt` left as the source leaves it, the address `b` of `,b` is
      written through NULL; with `rt = &rcpt_list` it is stored. */
  lemma UnsetTailPointer()
    ensures RcptParse(",b")[1] == "b"
    ensures RcptSaveAsWritten([], RcptParse(",b")[1], false, false).None?
    ensures RcptSaveAsWritten([], RcptParse(",b")[1], false, true) == Some(["b"])
  {
    EmptyTokenReachesSave();
    assert "b"[|"b"| - 1] == 'b';
    assert [] + ["b"] == ["b"];
  }

  /** Text without commas is one token. */
  lemma SingleToken(s: string)
    requires NoNul(s) && |s| > 0
    requires forall j :: 0 <= j < |s| ==> s[j] != ','
    ensures RcptParse(s) == [LTrim(Normalize(s))]
  {
    var t := Normalize(s);
    assert t[0..] == t;
    ScanNoComma(t, 0, 0, false);
  }

  /** A value that ends a group, `undisclosed-recipients:;`, adds no address. */
  lemma GroupTerminator()
    ensures RcptSplit([], "undisclosed-recipients:;") == []
  {
    var s := "undisclosed-recipients:;";
    forall j | 0 <= j < |s|
      ensures s[j] != ',' && s[j] != NUL && !IsLineSpace(s[j])
    {
    }
    SingleToken(s);
    NormalizeKeeps(s);
    assert LTrim(s) == s;
    SaveAllAppendsAccepted([], [s]);
    assert [s][1..] == [];
  }
}
