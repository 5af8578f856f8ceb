/** The command-line scanner of smailgun.c: `parse_options` (smailgun.c:652-943)
    and the `_basename` it relies on (smailgun.c:110-119).

    The scanner makes one pass over the arguments. A token that does not start
    with `-` is a recipient; a dash token is scanned letter by letter, where
    toggle letters keep scanning, value letters end the token (possibly taking
    the next one), and action letters end the program with status 0 through
    `pae`. The C code keeps a byte index `j` into the token; the model keeps it
    too, because several letters read bytes at fixed offsets from it. */
module Flags {
  import opened CStrings

  const Version: string := "0.1"

  /** Size of the `new_argv` array (smailgun.c:56-58). */
  const MaxArgs: nat := 1024

  /** The globals `parse_options` sets. */
  datatype Options = Options(
    minusT: bool,
    minusV: bool,
    logLevel: int,
    configFile: Option<string>,
    fullName: Option<string>,   // minus_F
    sender: Option<string>      // minus_f
  )

  const Defaults: Options := Options(false, false, 1, None, None, None)

  /** How `parse_options` ends: `pae` prints a message and exits with status 0;
      otherwise it returns the recipients. A run that reads past a token's
      terminator or past the end of `new_argv` has no defined outcome. */
  datatype Outcome = Exit(msg: string) | Done(recipients: seq<string>, opts: Options) | Undefined

  /** The three globals a value letter can set. */
  datatype Slot = ConfigFile | FullName | Sender

  function Set(o: Options, slot: Slot, v: string): Options {
    match slot
    case ConfigFile => o.(configFile := Some(v))
    case FullName => o.(fullName := Some(v))
    case Sender => o.(sender := Some(v))
  }

  /** Where scanning a token stands after one letter: scanning goes on after
      byte `at`, or the token is done and `add` tokens are consumed, or the
      program exits, or it has read past the terminator. */
  datatype Flow = Cont(at: nat, opts: Options) | Stop(opts: Options, add: nat) | Quit(msg: string) | Stuck

  /** Byte `p` of a C string: its terminator sits at index |tok|; anything
      further is out of bounds. */
  function Byte(tok: string, p: nat): Option<char> {
    if p < |tok| then Some(tok[p]) else if p == |tok| then Some(NUL) else None
  }

  /** A value letter at byte `j` (smailgun.c:723-737, 758-792): the next token
      when the letter ends its token and a next token exists, otherwise the
      rest of the token. */
  function Value(tok: string, next: Option<string>, j: nat, o: Options, slot: Slot): (r: Flow)
    requires j <= |tok|
    ensures r.Stop? || r.Stuck?
    ensures r.Stuck? <==> j == |tok|
    ensures r.Stop? ==> 1 <= r.add <= 2
    ensures r.Stop? ==> (r.add == 2 <==> next.Some? && (j + 1 == |tok| || tok[j + 1] == NUL))
    ensures r.Stop? ==> r.opts.minusT == o.minusT && r.opts.minusV == o.minusV && r.opts.logLevel == o.logLevel
    // The letter's slot receives the next argument or the rest of the token;
    // no other global changes.
    ensures r.Stop? ==> r.opts == Set(o, slot, if r.add == 2 then next.value else tok[j + 1..])
  {
    match Byte(tok, j + 1)
    case None => Stuck
    case Some(c) =>
      if c == NUL && next.Some? then Stop(Set(o, slot, next.value), 2)
      else Stop(Set(o, slot, tok[j + 1..]), 1)
  }

  /** The `-b` actions that print a notice and exit (smailgun.c:702-719). */
  const BActions: set<char> := {'a', 'd', 'i', 'p', 's', 't', 'v', 'z'}

  /** The `b` case, entered with `j` on the `b` (or on the byte after an `a`
      that was not followed by `u`): it reads the byte after `j`, and what it
      does not recognise falls through to `C` (smailgun.c:701-723). */
  function BCase(tok: string, next: Option<string>, j: nat, o: Options): (r: Flow)
    requires j <= |tok|
    ensures r.Quit? <==> j + 1 < |tok| && tok[j + 1] in BActions
    ensures r.Cont? <==> j + 1 < |tok| && tok[j + 1] == 'm'
    ensures r.Cont? ==> r.at == j + 1 && r.opts == o
    ensures r.Stop? ==> 1 <= r.add <= 2
  {
    match Byte(tok, j + 1)
    case None => Stuck
    case Some(c) =>
      if c in BActions then Quit("-b" + [c] + ": action ignored\n")
      else if c == 'm' then Cont(j + 1, o)
      else Value(tok, next, j + 1, o, ConfigFile)
  }

  /** Every byte after `-b` that is neither an action nor `m` falls through
      to `-C`: the configuration file is set from the next argument when the
      byte ends the token, otherwise from the rest of the token, and nothing
      else changes. The `-b` case reads past the terminator exactly when the
      byte it examines is the terminator itself, as for `-b` or `-ax`. */
  lemma BCaseFallsThrough(tok: string, next: Option<string>, j: nat, o: Options)
    requires j <= |tok|
    ensures BCase(tok, next, j, o).Stuck? <==> j + 1 >= |tok|
    ensures BCase(tok, next, j, o).Stop? ==>
      (BCase(tok, next, j, o).add == 2 <==> next.Some? && (j + 2 == |tok| || tok[j + 2] == NUL))
    ensures BCase(tok, next, j, o).Stop? ==>
      BCase(tok, next, j, o).opts == Set(o, ConfigFile, if BCase(tok, next, j, o).add == 2 then next.value else tok[j + 2..])
  {
  }

  /** The `-o` letters that end the token (smailgun.c:818-907). */
  const OStops: set<char> := {'A', 'F', 'g', 'L', 'Q', 'r', 'S', 'T', 't', 'u'}

  /** The `o` case with `j` on the `o`: it examines the next byte; `e` skips
      one byte more, and an unknown byte (including the terminator) leaves
      the inner switch and scanning goes on after it (smailgun.c:814-907). */
  function OCase(tok: string, j: nat, o: Options): (r: Flow)
    requires j < |tok|
    ensures r.Cont? ==> j < r.at <= |tok|
    ensures r.Stop? <==> j + 1 < |tok| && tok[j + 1] in OStops
    ensures r.Quit? <==> j + 1 < |tok| && (tok[j + 1] == 'D' || tok[j + 1] == 'o')
    ensures r.Stop? ==> r.add == 1 && r.opts == o
    ensures r.Cont? ==> r.opts == o || r.opts == o.(minusV := true)
    // Every other byte, the terminator included, scans on.
    ensures !r.Stuck?
  {
    var c := if j + 1 < |tok| then tok[j + 1] else NUL;
    if c in OStops then Stop(o, 1)
    else if c == 'D' then Quit("-oD: action ignored\n")
    else if c == 'o' then Quit("-oo: action ignored\n")
    else if c == 'e' then Cont(j + 2, o)
    else if c == 'v' then Cont(j + 1, o.(minusV := true))
    else Cont(j + 1, o)
  }

  /** After `-o`, `e` moves scanning one byte further than the other
      letters that scan on, and only `v` sets anything. */
  lemma OCaseScansOn(tok: string, j: nat, o: Options)
    requires j < |tok|
    ensures OCase(tok, j, o).Cont? ==> (OCase(tok, j, o).at == j + 2 <==> j + 1 < |tok| && tok[j + 1] == 'e')
    ensures OCase(tok, j, o).Cont? && j + 1 < |tok| && tok[j + 1] == 'v' ==> OCase(tok, j, o).opts == o.(minusV := true)
    ensures OCase(tok, j, o).Cont? && !(j + 1 < |tok| && tok[j + 1] == 'v') ==> OCase(tok, j, o).opts == o
  {
  }

  /** One letter of a dash token, at byte `j` (the body of the switch,
      smailgun.c:678-925). */
  function Letter(prog: string, tok: string, next: Option<string>, j: nat, o: Options): (r: Flow)
    requires j < |tok|
    ensures r.Cont? ==> j <= r.at <= |tok|
    ensures r.Stop? ==> 1 <= r.add <= 2
  {
    match tok[j]
    case 'a' =>
      if j + 1 < |tok| && tok[j + 1] == 'u' then
        // `-au`: the value is only printed; the next token is skipped when
        // the `u` ends the token.
        Stop(o, if j + 2 == |tok| && next.Some? then 2 else 1)
      else BCase(tok, next, j + 1, o)
    case 'b' => BCase(tok, next, j, o)
    case 'C' => Value(tok, next, j, o, ConfigFile)
    case 'd' => Cont(j, o.(logLevel := 1, minusV := true))
    case 'E' => Cont(j, o)
    case 'R' => if j + 1 == |tok| then Stop(o, 2) else Cont(j, o)
    case 'F' => Value(tok, next, j, o, FullName)
    case 'f' => Value(tok, next, j, o, Sender)
    case 'r' => Value(tok, next, j, o, Sender)
    case 'h' => Cont(j, o)
    case 'm' => Cont(j, o)
    case 'M' => Stop(o, 1)
    case 'N' => Stop(o, 2)
    case 'n' => Cont(j, o)
    case 'o' => OCase(tok, j, o)
    case 'q' => Quit(prog + ": Mail queue is empty\n")
    case 't' => Cont(j, o.(minusT := true))
    case 'v' => Cont(j, o.(minusV := true))
    case 'V' => Quit("smailgun " + Version + "\n")
    case _ => Cont(j, o)
  }

  /** The inner loop over a dash token, `while (argv[i][++j] != '\0')`, with
      `j` on the byte last examined (smailgun.c:677-928). */
  function Loop(prog: string, tok: string, next: Option<string>, j: nat, o: Options): (r: Flow)
    requires j <= |tok|
    ensures !r.Cont?
    ensures r.Stop? ==> 1 <= r.add <= 2
    decreases |tok| - j
  {
    match Byte(tok, j + 1)
    case None => Stuck
    case Some(c) =>
      if c == NUL then Stop(o, 1)
      else
        var r := Letter(prog, tok, next, j + 1, o);
        if r.Cont? then Loop(prog, tok, next, r.at, r.opts) else r
  }

  /** A recipient token: anything that does not start with `-`, the empty
      token included. */
  predicate Plain(tok: string) {
    |tok| == 0 || tok[0] != '-'
  }

  /** After the scan: `new_argv[new_argc] = NULL` and the two consistency
      checks between recipients and `-t` (smailgun.c:930-940). */
  function Finish(prog: string, recips: seq<string>, o: Options): (r: Outcome)
    ensures r.Done? <==> |recips| + 2 <= MaxArgs && (|recips| > 0) != o.minusT
    ensures r.Done? ==> r == Done(recips, o)
  {
    if |recips| + 1 >= MaxArgs then Undefined
    else if |recips| == 0 && !o.minusT then Exit(prog + ": no recipients supplied - mail will not be sent\n")
    else if |recips| > 0 && o.minusT then Exit(prog + ": recipients with -t option not supported\n")
    else Done(recips, o)
  }

  /** The outer loop over the arguments after argv[0] (smailgun.c:668-929). */
  function ScanArgs(prog: string, rest: seq<string>, recips: seq<string>, o: Options): (r: Outcome)
    requires AllNoNul(rest)
    ensures r.Done? ==> recips <= r.recipients && |r.recipients| + 2 <= MaxArgs
    ensures r.Done? ==> (|r.recipients| > 0) != r.opts.minusT
    ensures r.Done? ==> forall i :: |recips| <= i < |r.recipients| ==> Plain(r.recipients[i])
    decreases |rest|
  {
    if |rest| == 0 then Finish(prog, recips, o)
    else
      var tok := rest[0];
      if Plain(tok) then
        if |recips| + 1 >= MaxArgs then Undefined
        else ScanArgs(prog, rest[1..], recips + [tok], o)
      else
        var next := if |rest| > 1 then Some(rest[1]) else None;
        var r := Loop(prog, tok, next, 0, o);
        if r.Stop? then
          var skip := if r.add <= |rest| then r.add else |rest|;
          ScanArgs(prog, rest[skip..], recips, r.opts)
        else if r.Quit? then Exit(r.msg)
        else Undefined
  }

  /** `_basename(s)`: from the last `/` on, the slash included, or all of `s`. */
  function Basename(s: string): (r: string)
    ensures |r| <= |s| && r == s[|s| - |r|..]
    ensures (forall i :: 0 <= i < |s| ==> s[i] != '/') ==> r == s
    ensures (exists i :: 0 <= i < |s| && s[i] == '/') ==>
              |r| > 0 && r[0] == '/' && forall i :: 0 < i < |r| ==> r[i] != '/'
  {
    match LastIndexOf(s, '/')
    case Some(k) => s[k..]
    case None => s
  }

  /** `parse_options(argc, argv)`, with `prog` the base name of argv[0]
      (smailgun.c:947 and smailgun.c:652-943). */
  function ParseOptions(argv: seq<string>): (r: Outcome)
    requires |argv| >= 1 && AllNoNul(argv)
    ensures r.Done? ==> |r.recipients| + 2 <= MaxArgs && (|r.recipients| > 0) != r.opts.minusT
    ensures r.Done? ==> forall i :: 0 <= i < |r.recipients| ==> Plain(r.recipients[i])
  {
    var prog := Basename(argv[0]);
    if prog == "mailq" then Exit("mailq: ignore action\n")
    else if prog == "newaliases" then Exit("newaliases: ignore action\n")
    else ScanArgs(prog, argv[1..], [], Defaults)
  }

  // ---------------------------------------------------------------------------
  // The invocation name.

  /** For a name without `/`, `_basename` yields it exactly when argv[0] is
      that name: a path such as `/usr/bin/mailq` keeps its slash and so is
      never taken for `mailq`. */
  lemma BasenameIs(s: string, name: string)
    requires forall i :: 0 <= i < |name| ==> name[i] != '/'
    ensures Basename(s) == name <==> s == name
  {
    var r := Basename(s);
    if exists i :: 0 <= i < |s| && s[i] == '/' {
      assert |r| > 0 && r[0] == '/';
      assert |name| == 0 || r[0] != name[0];
      var i :| 0 <= i < |s| && s[i] == '/';
      assert |s| != |name| || name[i] != s[i];
    }
  }

  /** Invoked as `mailq` or `newaliases`, the program only prints a notice. */
  lemma InvocationName(argv: seq<string>)
    requires |argv| >= 1 && AllNoNul(argv)
    ensures argv[0] == "mailq" ==> ParseOptions(argv) == Exit("mailq: ignore action\n")
    ensures argv[0] == "newaliases" ==> ParseOptions(argv) == Exit("newaliases: ignore action\n")
    ensures argv[0] != "mailq" && argv[0] != "newaliases" ==>
              ParseOptions(argv) == ScanArgs(Basename(argv[0]), argv[1..], [], Defaults)
  {
    BasenameIs(argv[0], "mailq");
    BasenameIs(argv[0], "newaliases");
  }

  // ---------------------------------------------------------------------------
  // Recipients: the plain tokens, verbatim and in order.

  /** `a` is `b` with some elements left out, the order kept. */
  predicate Subseq(a: seq<string>, b: seq<string>)
    decreases |b|
  {
    if |a| == 0 then true
    else if |b| == 0 then false
    else (a[0] == b[0] && Subseq(a[1..], b[1..])) || Subseq(a, b[1..])
  }

  lemma {:induction false} SubseqDrop(a: seq<string>, b: seq<string>, k: nat)
    requires k <= |b| && Subseq(a, b[k..])
    ensures Subseq(a, b)
    decreases k
  {
    if k > 0 {
      assert b[1..][k - 1..] == b[k..];
      SubseqDrop(a, b[1..], k - 1);
    } else {
      assert b[k..] == b;
    }
  }

  lemma {:induction false} ScanArgsDone(prog: string, rest: seq<string>, recips: seq<string>, o: Options)
    requires AllNoNul(rest)
    requires ScanArgs(prog, rest, recips, o).Done?
    ensures var r := ScanArgs(prog, rest, recips, o).recipients;
      && recips <= r
      && Subseq(r[|recips|..], rest)
      && (forall i :: |recips| <= i < |r| ==> Plain(r[i]))
      && |r| + 2 <= MaxArgs
      && (|r| > 0) != ScanArgs(prog, rest, recips, o).opts.minusT
    ensures ScanArgs(prog, rest, recips, o).recipients == recips + PlainMarked(rest, Examined(prog, rest, o))
    decreases |rest|
  {
    ScanArgsRecipients(prog, rest, recips, o);
    var out := ScanArgs(prog, rest, recips, o);
    if |rest| == 0 {
      assert out.recipients[|recips|..] == [];
    } else {
      var tok := rest[0];
      if Plain(tok) {
        var recips' := recips + [tok];
        ScanArgsDone(prog, rest[1..], recips', o);
        var r := out.recipients;
        assert r[|recips|..] == [tok] + r[|recips'|..];
        assert r[|recips|..][1..] == r[|recips'|..];
      } else {
        var next := if |rest| > 1 then Some(rest[1]) else None;
        var l := Loop(prog, tok, next, 0, o);
        var skip := if l.add <= |rest| then l.add else |rest|;
        ScanArgsDone(prog, rest[skip..], recips, l.opts);
        SubseqDrop(out.recipients[|recips|..], rest, skip);
      }
    }
  }

  /** On a normal return the recipients are plain arguments taken in order
      from argv[1..], at most `MaxArgs - 2` of them, and there are some
      exactly when `-t` was not given. Conversely, every plain argument the
      scan examines is a recipient, and every argument it does not examine is
      the value of the dash token before it. */
  lemma DoneRecipients(argv: seq<string>)
    requires |argv| >= 1 && AllNoNul(argv)
    requires ParseOptions(argv).Done?
    ensures var out := ParseOptions(argv);
      && Subseq(out.recipients, argv[1..])
      && (forall i :: 0 <= i < |out.recipients| ==> Plain(out.recipients[i]))
      && |out.recipients| + 2 <= MaxArgs
      && (|out.recipients| > 0) != out.opts.minusT
    ensures var m := Examined(Basename(argv[0]), argv[1..], Defaults);
      && ParseOptions(argv).recipients == PlainMarked(argv[1..], m)
      && ValuesMarked(argv[1..], m)
  {
    InvocationName(argv);
    ScanArgsDone(Basename(argv[0]), argv[1..], [], Defaults);
    SkippedAreValues(Basename(argv[0]), argv[1..], [], Defaults);
    assert ParseOptions(argv).recipients[0..] == ParseOptions(argv).recipients;
  }

  /** The positions of `rest` that the outer loop examines as tokens, marked
      `true`; the rest are marked `false`. Those are the arguments a dash
      token consumes as its value, and everything after an exit or a read
      past a terminator. Only the number of arguments each dash token
      consumes decides the marks. */
  function Examined(prog: string, rest: seq<string>, o: Options): (m: seq<bool>)
    requires AllNoNul(rest)
    ensures |m| == |rest|
    ensures |rest| > 0 ==> m[0]
    decreases |rest|
  {
    if |rest| == 0 then []
    else if Plain(rest[0]) then [true] + Examined(prog, rest[1..], o)
    else
      var next := if |rest| > 1 then Some(rest[1]) else None;
      var l := Loop(prog, rest[0], next, 0, o);
      if l.Stop? && l.add <= |rest| then
        [true] + (if l.add == 2 then [false] else []) + Examined(prog, rest[l.add..], l.opts)
      else [true] + seq(|rest| - 1, _ => false)
  }

  /** The arguments of `rest` marked in `m` that are plain tokens, in order. */
  function PlainMarked(rest: seq<string>, m: seq<bool>): seq<string>
    requires |m| == |rest|
    decreases |rest|
  {
    if |rest| == 0 then []
    else (if m[0] && Plain(rest[0]) then [rest[0]] else []) + PlainMarked(rest[1..], m[1..])
  }

  /** A dash token and the value it consumes contribute no recipient. */
  lemma PlainMarkedDash(rest: seq<string>, m: seq<bool>, k: nat, m': seq<bool>)
    requires 1 <= k <= 2 && k <= |rest| && |m| == |rest| && !Plain(rest[0])
    requires m == [true] + (if k == 2 then [false] else []) + m'
    ensures PlainMarked(rest, m) == PlainMarked(rest[k..], m')
  {
    assert m[1..] == (if k == 2 then [false] else []) + m';
    if k == 2 {
      assert m[1..][1..] == m' && rest[1..][1..] == rest[2..];
    }
  }

  /** On a normal return the new recipients are exactly the plain arguments
      the outer loop examined, in order: none is lost and none is added. */
  lemma {:induction false} ScanArgsRecipients(prog: string, rest: seq<string>, recips: seq<string>, o: Options)
    requires AllNoNul(rest)
    requires ScanArgs(prog, rest, recips, o).Done?
    ensures ScanArgs(prog, rest, recips, o).recipients == recips + PlainMarked(rest, Examined(prog, rest, o))
    decreases |rest|
  {
    if |rest| > 0 {
      var tok := rest[0];
      var m := Examined(prog, rest, o);
      if Plain(tok) {
        ScanArgsRecipients(prog, rest[1..], recips + [tok], o);
        assert m[1..] == Examined(prog, rest[1..], o);
      } else {
        var next := if |rest| > 1 then Some(rest[1]) else None;
        var l := Loop(prog, tok, next, 0, o);
        if l.add <= |rest| {
          ScanArgsRecipients(prog, rest[l.add..], recips, l.opts);
          PlainMarkedDash(rest, m, l.add, Examined(prog, rest[l.add..], l.opts));
        } else {
          assert rest[|rest|..] == [];
        }
      }
    }
  }

  /** Every argument left unmarked in `m` is the value of the dash token
      just before it. */
  predicate ValuesMarked(rest: seq<string>, m: seq<bool>)
    requires |m| == |rest|
  {
    forall i :: 0 <= i < |rest| && !m[i] ==> 0 < i && m[i - 1] && !Plain(rest[i - 1])
  }

  /** A token, with the value it consumes when `k` is 2, put in front of
      marks that have this shape keeps it. */
  lemma ValuesMarkedShift(rest: seq<string>, m: seq<bool>, k: nat, m': seq<bool>)
    requires 1 <= k <= 2 && k <= |rest| && |m| == |rest| && (k == 2 ==> !Plain(rest[0]))
    requires m == [true] + (if k == 2 then [false] else []) + m'
    requires |m'| > 0 ==> m'[0]
    requires ValuesMarked(rest[k..], m')
    ensures ValuesMarked(rest, m)
  {
    forall i | 0 <= i < |rest| && !m[i]
      ensures 0 < i && m[i - 1] && !Plain(rest[i - 1])
    {
      if i >= k {
        assert m[i] == m'[i - k];
        assert i - k > 0;
        assert m[i - 1] == m'[i - k - 1] && rest[i - 1] == rest[k..][i - k - 1];
      }
    }
  }

  /** On a normal return every argument the outer loop did not examine is the
      value of the dash token just before it. */
  lemma {:induction false} SkippedAreValues(prog: string, rest: seq<string>, recips: seq<string>, o: Options)
    requires AllNoNul(rest)
    requires ScanArgs(prog, rest, recips, o).Done?
    ensures ValuesMarked(rest, Examined(prog, rest, o))
    decreases |rest|
  {
    if |rest| > 0 {
      var tok := rest[0];
      var m := Examined(prog, rest, o);
      if Plain(tok) {
        SkippedAreValues(prog, rest[1..], recips + [tok], o);
        ValuesMarkedShift(rest, m, 1, Examined(prog, rest[1..], o));
      } else {
        var next := if |rest| > 1 then Some(rest[1]) else None;
        var l := Loop(prog, tok, next, 0, o);
        if l.add <= |rest| {
          SkippedAreValues(prog, rest[l.add..], recips, l.opts);
          ValuesMarkedShift(rest, m, l.add, Examined(prog, rest[l.add..], l.opts));
        }
      }
    }
  }

  lemma {:induction false} ScanPlain(prog: string, rest: seq<string>, recips: seq<string>, o: Options)
    requires AllNoNul(rest) && forall i :: 0 <= i < |rest| ==> Plain(rest[i])
    requires |recips| + |rest| + 1 < MaxArgs
    ensures ScanArgs(prog, rest, recips, o) == Finish(prog, recips + rest, o)
    decreases |rest|
  {
    if |rest| == 0 {
      assert recips + rest == recips;
    } else {
      ScanPlain(prog, rest[1..], recips + [rest[0]], o);
      assert recips + [rest[0]] + rest[1..] == recips + rest;
    }
  }

  lemma {:induction false} ScanPlainOverflow(prog: string, rest: seq<string>, recips: seq<string>, o: Options)
    requires AllNoNul(rest) && forall i :: 0 <= i < |rest| ==> Plain(rest[i])
    requires |recips| + |rest| + 1 >= MaxArgs
    ensures ScanArgs(prog, rest, recips, o) == Undefined
    decreases |rest|
  {
    if |rest| > 0 && |recips| + 1 < MaxArgs {
      ScanPlainOverflow(prog, rest[1..], recips + [rest[0]], o);
    }
  }

  /** Without any dash token every argument is a recipient, verbatim and in
      order; with none at all the program refuses to send, and with
      `MaxArgs - 1` or more the writes run past the end of `new_argv`. */
  lemma PlainArguments(argv: seq<string>)
    requires |argv| >= 1 && AllNoNul(argv)
    requires argv[0] != "mailq" && argv[0] != "newaliases"
    requires forall i :: 1 <= i < |argv| ==> Plain(argv[i])
    ensures |argv| == 1 ==>
      ParseOptions(argv) == Exit(Basename(argv[0]) + ": no recipients supplied - mail will not be sent\n")
    ensures 1 < |argv| < MaxArgs ==> ParseOptions(argv) == Done(argv[1..], Defaults)
    ensures |argv| >= MaxArgs ==> ParseOptions(argv) == Undefined
  {
    InvocationName(argv);
    if |argv| < MaxArgs {
      ScanPlain(Basename(argv[0]), argv[1..], [], Defaults);
      assert [] + argv[1..] == argv[1..];
    } else {
      ScanPlainOverflow(Basename(argv[0]), argv[1..], [], Defaults);
    }
  }

  // ---------------------------------------------------------------------------
  // Dash tokens.

  /** The outer loop's step on a dash token followed by `rest`. */
  lemma DashStep(prog: string, tok: string, rest: seq<string>, recips: seq<string>, o: Options)
    requires !Plain(tok) && NoNul(tok) && AllNoNul(rest)
    ensures AllNoNul([tok] + rest)
    ensures var l := Loop(prog, tok, if |rest| > 0 then Some(rest[0]) else None, 0, o);
      ScanArgs(prog, [tok] + rest, recips, o) ==
        if l.Stop? then ScanArgs(prog, if l.add - 1 <= |rest| then rest[l.add - 1..] else [], recips, l.opts)
        else if l.Quit? then Exit(l.msg)
        else Undefined
  {
    var args := [tok] + rest;
    assert args[0] == tok && args[1..] == rest;
    assert AllNoNul(args) by {
      forall i | 0 <= i < |args| ensures NoNul(args[i]) {
        if i > 0 { assert args[i] == rest[i - 1]; }
      }
    }
    assert |args| > 1 ==> args[1] == rest[0];
    assert |args| >= 2 ==> args[2..] == rest[1..];
  }

  /** The letters that take a value, and the global each one sets. */
  const ValueLetters: set<char> := {'C', 'F', 'f', 'r'}

  function SlotOf(l: char): Slot {
    if l == 'C' then ConfigFile else if l == 'F' then FullName else Sender
  }

  /** `-C x`: a value letter that ends its token takes the next token whole,
      whatever it looks like, and skips it. */
  lemma ValueSeparate(prog: string, l: char, x: string, rest: seq<string>, recips: seq<string>, o: Options)
    requires l in ValueLetters && NoNul(x) && AllNoNul(rest)
    ensures AllNoNul([x] + rest)
    ensures ScanArgs(prog, ["-" + [l]] + ([x] + rest), recips, o)
         == ScanArgs(prog, rest, recips, Set(o, SlotOf(l), x))
  {
    var tok := "-" + [l];
    assert tok[0] == '-' && tok[1] == l && |tok| == 2;
    assert Loop(prog, tok, Some(x), 0, o) == Stop(Set(o, SlotOf(l), x), 2) by {
      assert Letter(prog, tok, Some(x), 1, o) == Value(tok, Some(x), 1, o, SlotOf(l));
    }
    DashStep(prog, tok, [x] + rest, recips, o);
    assert ([x] + rest)[1..] == rest;
  }

  /** `-Cx`: a value letter followed by text takes that text. */
  lemma ValueAttached(prog: string, l: char, x: string, rest: seq<string>, recips: seq<string>, o: Options)
    requires l in ValueLetters && |x| > 0 && NoNul(x) && AllNoNul(rest)
    ensures ScanArgs(prog, ["-" + [l] + x] + rest, recips, o)
         == ScanArgs(prog, rest, recips, Set(o, SlotOf(l), x))
  {
    var tok := "-" + [l] + x;
    assert tok[0] == '-' && tok[1] == l && tok[2] == x[0] && tok[2..] == x;
    var next := if |rest| > 0 then Some(rest[0]) else None;
    assert Loop(prog, tok, next, 0, o) == Stop(Set(o, SlotOf(l), x), 1) by {
      assert Letter(prog, tok, next, 1, o) == Value(tok, next, 1, o, SlotOf(l));
    }
    DashStep(prog, tok, rest, recips, o);
    assert rest[0..] == rest;
  }

  /** `-C x` and `-Cx` set the same global to the same value (for a
      non-empty `x`). */
  lemma ValueForms(prog: string, l: char, x: string, rest: seq<string>, recips: seq<string>, o: Options)
    requires l in ValueLetters && |x| > 0 && NoNul(x) && AllNoNul(rest)
    ensures AllNoNul([x] + rest)
    ensures ScanArgs(prog, ["-" + [l]] + ([x] + rest), recips, o)
         == ScanArgs(prog, ["-" + [l] + x] + rest, recips, o)
  {
    ValueSeparate(prog, l, x, rest, recips, o);
    ValueAttached(prog, l, x, rest, recips, o);
  }

  // ---------------------------------------------------------------------------
  // Action letters: the program prints a notice and exits with status 0,
  // wherever the token stands and whatever follows the letter.

  lemma QueueAndVersionLoop(prog: string, l: char, w: string, next: Option<string>, o: Options)
    requires l == 'q' || l == 'V'
    ensures Loop(prog, "-" + [l] + w, next, 0, o)
         == Quit(if l == 'q' then prog + ": Mail queue is empty\n" else "smailgun 0.1\n")
  {
    var tok := "-" + [l] + w;
    assert tok[1] == l;
    assert Loop(prog, tok, next, 0, o) == Letter(prog, tok, next, 1, o);
  }

  lemma QueueAndVersion(prog: string, l: char, w: string, rest: seq<string>, recips: seq<string>, o: Options)
    requires (l == 'q' || l == 'V') && NoNul(w) && AllNoNul(rest)
    ensures ScanArgs(prog, ["-" + [l] + w] + rest, recips, o)
         == Exit(if l == 'q' then prog + ": Mail queue is empty\n" else "smailgun 0.1\n")
  {
    var tok := "-" + [l] + w;
    assert tok[0] == '-' && NoNul(tok);
    QueueAndVersionLoop(prog, l, w, if |rest| > 0 then Some(rest[0]) else None, o);
    DashStep(prog, tok, rest, recips, o);
  }

  /** `-ba`, `-bd`, `-bi`, `-bp`, `-bs`, `-bt`, `-bv`, `-bz`. */
  lemma BActionExits(prog: string, c: char, w: string, rest: seq<string>, recips: seq<string>, o: Options)
    requires c in BActions && NoNul(w) && AllNoNul(rest)
    ensures ScanArgs(prog, ["-b" + [c] + w] + rest, recips, o) == Exit("-b" + [c] + ": action ignored\n")
  {
    var tok := "-b" + [c] + w;
    assert tok[0] == '-' && tok[1] == 'b' && tok[2] == c && NoNul(tok);
    var next := if |rest| > 0 then Some(rest[0]) else None;
    assert Loop(prog, tok, next, 0, o) == Letter(prog, tok, next, 1, o);
    DashStep(prog, tok, rest, recips, o);
  }

  /** `-oD` and `-oo`. */
  lemma OActionExits(prog: string, c: char, w: string, rest: seq<string>, recips: seq<string>, o: Options)
    requires (c == 'D' || c == 'o') && NoNul(w) && AllNoNul(rest)
    ensures ScanArgs(prog, ["-o" + [c] + w] + rest, recips, o)
         == Exit(if c == 'D' then "-oD: action ignored\n" else "-oo: action ignored\n")
  {
    var tok := "-o" + [c] + w;
    assert tok[0] == '-' && tok[1] == 'o' && tok[2] == c && NoNul(tok);
    var next := if |rest| > 0 then Some(rest[0]) else None;
    OActionLoop(prog, tok, next, c, o);
    DashStep(prog, tok, rest, recips, o);
  }

  lemma OActionLoop(prog: string, tok: string, next: Option<string>, c: char, o: Options)
    requires |tok| >= 3 && tok[0] == '-' && tok[1] == 'o' && tok[2] == c && (c == 'D' || c == 'o')
    ensures Loop(prog, tok, next, 0, o)
         == Quit(if c == 'D' then "-oD: action ignored\n" else "-oo: action ignored\n")
  {
    assert Loop(prog, tok, next, 0, o) == Letter(prog, tok, next, 1, o);
    assert Letter(prog, tok, next, 1, o) == OCase(tok, 1, o);
  }

  // ---------------------------------------------------------------------------
  // Fall-through and skipping quirks of the switch.

  /** `-bX` for any other `X` falls through to `-C`: `-bq foo` sets the
      configuration file to `foo`, and `-bqfoo` to `foo` as well. */
  lemma BSeparateLoop(prog: string, c: char, x: string, o: Options)
    requires c !in BActions && c != 'm' && c != NUL
    ensures Loop(prog, "-b" + [c], Some(x), 0, o) == Stop(o.(configFile := Some(x)), 2)
  {
    var tok := "-b" + [c];
    assert tok[1] == 'b' && tok[2] == c && |tok| == 3;
    assert Letter(prog, tok, Some(x), 1, o) == Value(tok, Some(x), 2, o, ConfigFile);
  }

  lemma BAttachedLoop(prog: string, c: char, x: string, next: Option<string>, o: Options)
    requires c !in BActions && c != 'm' && c != NUL && |x| > 0 && NoNul(x)
    ensures Loop(prog, "-b" + [c] + x, next, 0, o) == Stop(o.(configFile := Some(x)), 1)
  {
    var tok := "-b" + [c] + x;
    assert tok[1] == 'b' && tok[2] == c && tok[3] == x[0] && tok[3..] == x;
    assert Letter(prog, tok, next, 1, o) == Value(tok, next, 2, o, ConfigFile);
  }

  lemma BFallsToConfig(prog: string, c: char, x: string, rest: seq<string>, recips: seq<string>, o: Options)
    requires c !in BActions && c != 'm' && c != NUL && NoNul(x) && AllNoNul(rest)
    ensures AllNoNul([x] + rest)
    ensures ScanArgs(prog, ["-b" + [c]] + ([x] + rest), recips, o)
         == ScanArgs(prog, rest, recips, o.(configFile := Some(x)))
    ensures |x| > 0 ==>
      ScanArgs(prog, ["-b" + [c] + x] + rest, recips, o) == ScanArgs(prog, rest, recips, o.(configFile := Some(x)))
  {
    var tok := "-b" + [c];
    assert tok[0] == '-' && NoNul(tok);
    BSeparateLoop(prog, c, x, o);
    DashStep(prog, tok, [x] + rest, recips, o);
    assert ([x] + rest)[1..] == rest;
    if |x| > 0 {
      var tok' := "-b" + [c] + x;
      assert tok'[0] == '-' && NoNul(tok');
      BAttachedLoop(prog, c, x, if |rest| > 0 then Some(rest[0]) else None, o);
      DashStep(prog, tok', rest, recips, o);
      assert rest[0..] == rest;
    }
  }

  /** `-N` always skips the next token, whatever follows the letter. */
  lemma NSkipsNext(prog: string, w: string, x: string, rest: seq<string>, recips: seq<string>, o: Options)
    requires NoNul(w) && NoNul(x) && AllNoNul(rest)
    ensures AllNoNul([x] + rest)
    ensures ScanArgs(prog, ["-N" + w] + ([x] + rest), recips, o) == ScanArgs(prog, rest, recips, o)
  {
    var tok := "-N" + w;
    assert tok[0] == '-' && tok[1] == 'N' && NoNul(tok);
    assert Loop(prog, tok, Some(x), 0, o) == Stop(o, 2) by {
      assert Loop(prog, tok, Some(x), 0, o) == Letter(prog, tok, Some(x), 1, o);
    }
    DashStep(prog, tok, [x] + rest, recips, o);
    assert ([x] + rest)[1..] == rest;
  }

  /** `-au` only prints its value: `-au x` skips `x`, `-aux` ends the token,
      and nothing is set either way. */
  lemma AuPrintsOnly(prog: string, x: string, rest: seq<string>, recips: seq<string>, o: Options)
    requires NoNul(x) && AllNoNul(rest)
    ensures AllNoNul([x] + rest)
    ensures ScanArgs(prog, ["-au"] + ([x] + rest), recips, o) == ScanArgs(prog, rest, recips, o)
    ensures |x| > 0 ==>
      ScanArgs(prog, ["-au" + x] + rest, recips, o) == ScanArgs(prog, rest, recips, o)
  {
    var tok := "-au";
    assert tok[0] == '-' && tok[1] == 'a' && tok[2] == 'u' && |tok| == 3;
    assert Loop(prog, tok, Some(x), 0, o) == Stop(o, 2) by {
      assert Loop(prog, tok, Some(x), 0, o) == Letter(prog, tok, Some(x), 1, o);
    }
    DashStep(prog, tok, [x] + rest, recips, o);
    assert ([x] + rest)[1..] == rest;
    if |x| > 0 {
      var tok' := "-au" + x;
      assert tok'[0] == '-' && tok'[1] == 'a' && tok'[2] == 'u' && |tok'| == 3 + |x| && NoNul(tok');
      var next := if |rest| > 0 then Some(rest[0]) else None;
      assert Loop(prog, tok', next, 0, o) == Stop(o, 1) by {
        assert Loop(prog, tok', next, 0, o) == Letter(prog, tok', next, 1, o);
      }
      DashStep(prog, tok', rest, recips, o);
      assert rest[0..] == rest;
    }
  }

  /** `-R` alone skips the next token. */
  lemma RAloneSkips(prog: string, x: string, rest: seq<string>, recips: seq<string>, o: Options)
    requires NoNul(x) && AllNoNul(rest)
    ensures AllNoNul([x] + rest)
    ensures ScanArgs(prog, ["-R"] + ([x] + rest), recips, o) == ScanArgs(prog, rest, recips, o)
  {
    var tok := "-R";
    assert tok[0] == '-' && tok[1] == 'R' && |tok| == 2;
    assert Loop(prog, tok, Some(x), 0, o) == Stop(o, 2) by {
      assert Loop(prog, tok, Some(x), 0, o) == Letter(prog, tok, Some(x), 1, o);
    }
    DashStep(prog, tok, [x] + rest, recips, o);
    assert ([x] + rest)[1..] == rest;
  }

  /** `-a`, `-b`, `-o` and `-oe` with nothing after them read past the end of
      their token. */
  lemma ReadsPastTerminator(prog: string, tok: string, rest: seq<string>, recips: seq<string>, o: Options)
    requires tok == "-a" || tok == "-b" || tok == "-o" || tok == "-oe"
    requires AllNoNul(rest)
    ensures ScanArgs(prog, [tok] + rest, recips, o) == Undefined
  {
    assert tok[0] == '-' && NoNul(tok);
    var next := if |rest| > 0 then Some(rest[0]) else None;
    assert Loop(prog, tok, next, 0, o) == Stuck by {
      if tok == "-o" || tok == "-oe" {
        assert tok[1] == 'o';
        var at := |tok|;
        assert Letter(prog, tok, next, 1, o) == Cont(at, o);
        assert Loop(prog, tok, next, 0, o) == Loop(prog, tok, next, at, o);
      } else {
        assert Loop(prog, tok, next, 0, o) == Letter(prog, tok, next, 1, o);
      }
    }
    DashStep(prog, tok, rest, recips, o);
  }

  // ---------------------------------------------------------------------------
  // Bundled letters. Scanning only ever looks forward from the byte it is
  // on, so two tokens whose tails agree are scanned alike; hence a letter
  // that merely sets a flag can be split off into a token of its own.

  /** The bytes after `j1` in `t1` are those after `j2` in `t2`. */
  predicate AgreeAfter(t1: string, j1: nat, t2: string, j2: nat) {
    j1 <= |t1| && j2 <= |t2| && |t1| - j1 == |t2| - j2
    && (j1 < |t1| ==> t1[j1 + 1..] == t2[j2 + 1..])
  }

  /** Two flows that are the same up to where scanning stands. */
  predicate SameFlow(r1: Flow, r2: Flow, j1: nat, j2: nat) {
    if r1.Cont? then r2.Cont? && r1.opts == r2.opts && r1.at - j1 == r2.at - j2
    else r1 == r2
  }

  lemma AfterNext(t1: string, j1: nat, t2: string, j2: nat)
    requires AgreeAfter(t1, j1, t2, j2)
    ensures Byte(t1, j1 + 1) == Byte(t2, j2 + 1)
    ensures j1 < |t1| ==> AgreeAfter(t1, j1 + 1, t2, j2 + 1)
  {
    if j1 + 1 < |t1| {
      assert t1[j1 + 1] == t1[j1 + 1..][0] == t2[j2 + 1..][0] == t2[j2 + 1];
      assert t1[j1 + 2..] == t1[j1 + 1..][1..];
      assert t2[j2 + 2..] == t2[j2 + 1..][1..];
    }
  }

  lemma ValueShift(t1: string, j1: nat, t2: string, j2: nat, next: Option<string>, o: Options, slot: Slot)
    requires AgreeAfter(t1, j1, t2, j2)
    ensures Value(t1, next, j1, o, slot) == Value(t2, next, j2, o, slot)
  {
    AfterNext(t1, j1, t2, j2);
  }

  lemma BCaseShift(t1: string, j1: nat, t2: string, j2: nat, next: Option<string>, o: Options)
    requires AgreeAfter(t1, j1, t2, j2)
    ensures SameFlow(BCase(t1, next, j1, o), BCase(t2, next, j2, o), j1, j2)
  {
    AfterNext(t1, j1, t2, j2);
    if j1 < |t1| {
      ValueShift(t1, j1 + 1, t2, j2 + 1, next, o, ConfigFile);
    }
  }

  lemma OCaseShift(t1: string, j1: nat, t2: string, j2: nat, o: Options)
    requires j1 < |t1| && AgreeAfter(t1, j1, t2, j2)
    ensures SameFlow(OCase(t1, j1, o), OCase(t2, j2, o), j1, j2)
  {
    AfterNext(t1, j1, t2, j2);
  }

  /** The bytes from `j1` on in `t1` are those from `j2` on in `t2`. */
  predicate AgreeAt(t1: string, j1: nat, t2: string, j2: nat) {
    j1 < |t1| && j2 < |t2| && t1[j1..] == t2[j2..]
  }

  lemma AgreeAtFacts(t1: string, j1: nat, t2: string, j2: nat)
    requires AgreeAt(t1, j1, t2, j2)
    ensures t1[j1] == t2[j2]
    ensures AgreeAfter(t1, j1, t2, j2)
    ensures Byte(t1, j1 + 1) == Byte(t2, j2 + 1)
    ensures j1 + 1 < |t1| ==> AgreeAfter(t1, j1 + 1, t2, j2 + 1)
  {
    assert t1[j1] == t1[j1..][0] == t2[j2..][0] == t2[j2];
    assert t1[j1 + 1..] == t1[j1..][1..] && t2[j2 + 1..] == t2[j2..][1..];
    AfterNext(t1, j1, t2, j2);
  }

  /** The letters that read further bytes of the token. */
  const Readers: set<char> := {'a', 'b', 'C', 'F', 'f', 'r', 'o'}

  lemma LetterShiftReader(prog: string, t1: string, j1: nat, t2: string, j2: nat, next: Option<string>, o: Options)
    requires AgreeAt(t1, j1, t2, j2) && t1[j1] in Readers
    ensures SameFlow(Letter(prog, t1, next, j1, o), Letter(prog, t2, next, j2, o), j1, j2)
  {
    AgreeAtFacts(t1, j1, t2, j2);
    var c := t1[j1];
    if c == 'a' {
      BCaseShift(t1, j1 + 1, t2, j2 + 1, next, o);
    } else if c == 'b' {
      BCaseShift(t1, j1, t2, j2, next, o);
    } else if c == 'o' {
      OCaseShift(t1, j1, t2, j2, o);
    } else {
      ValueShift(t1, j1, t2, j2, next, o, if c == 'C' then ConfigFile else if c == 'F' then FullName else Sender);
    }
  }

  lemma LetterShiftOther(prog: string, t1: string, j1: nat, t2: string, j2: nat, next: Option<string>, o: Options)
    requires AgreeAt(t1, j1, t2, j2) && t1[j1] !in Readers
    ensures SameFlow(Letter(prog, t1, next, j1, o), Letter(prog, t2, next, j2, o), j1, j2)
  {
    AgreeAtFacts(t1, j1, t2, j2);
  }

  lemma LetterShift(prog: string, t1: string, j1: nat, t2: string, j2: nat, next: Option<string>, o: Options)
    requires AgreeAt(t1, j1, t2, j2)
    ensures SameFlow(Letter(prog, t1, next, j1, o), Letter(prog, t2, next, j2, o), j1, j2)
  {
    if t1[j1] in Readers {
      LetterShiftReader(prog, t1, j1, t2, j2, next, o);
    } else {
      LetterShiftOther(prog, t1, j1, t2, j2, next, o);
    }
  }

  /** Agreement from two positions on carries over to any later pair the
      same distance ahead. */
  lemma AgreeAfterFrom(t1: string, a1: nat, t2: string, a2: nat, d: nat)
    requires AgreeAt(t1, a1, t2, a2) && a1 + d <= |t1|
    ensures AgreeAfter(t1, a1 + d, t2, a2 + d)
  {
    if a1 + d < |t1| {
      assert t1[a1 + d + 1..] == t1[a1..][d + 1..];
      assert t2[a2 + d + 1..] == t2[a2..][d + 1..];
    }
  }

  /** Scanning the rest of a token depends only on the bytes still ahead. */
  lemma {:induction false} LoopShift(prog: string, t1: string, j1: nat, t2: string, j2: nat, next: Option<string>, o: Options)
    requires AgreeAfter(t1, j1, t2, j2)
    ensures Loop(prog, t1, next, j1, o) == Loop(prog, t2, next, j2, o)
    decreases |t1| - j1
  {
    AfterNext(t1, j1, t2, j2);
    if j1 + 1 < |t1| && t1[j1 + 1] != NUL {
      assert AgreeAt(t1, j1 + 1, t2, j2 + 1);
      LetterShift(prog, t1, j1 + 1, t2, j2 + 1, next, o);
      var r1 := Letter(prog, t1, next, j1 + 1, o);
      var r2 := Letter(prog, t2, next, j2 + 1, o);
      if r1.Cont? {
        AgreeAfterFrom(t1, j1 + 1, t2, j2 + 1, r1.at - (j1 + 1));
        LoopShift(prog, t1, r1.at, t2, r2.at, next, r1.opts);
      }
    }
  }

  /** The letters that only set flags or do nothing and keep scanning
      (smailgun.c:739-747, 795-800, 812-813, 912-919), and every letter the
      switch does not list (`Listed`), which also keeps scanning. */
  const Toggles: set<char> := {'d', 'E', 'h', 'm', 'n', 't', 'v'}
  const Listed: set<char> :=
    {'a', 'b', 'C', 'd', 'E', 'R', 'F', 'f', 'r', 'h', 'm', 'M', 'N', 'n', 'o', 'q', 't', 'v', 'V'}

  predicate FlagLetter(c: char) {
    c in Toggles || (c !in Listed && c != NUL)
  }

  /** What a flag letter sets. */
  function Toggle(c: char, o: Options): Options {
    if c == 'd' then o.(logLevel := 1, minusV := true)
    else if c == 't' then o.(minusT := true)
    else if c == 'v' then o.(minusV := true)
    else o
  }

  /** Two dash tokens whose scans agree have the same effect. */
  lemma SameScan(prog: string, t1: string, t2: string, rest: seq<string>, recips: seq<string>, o1: Options, o2: Options)
    requires !Plain(t1) && !Plain(t2) && NoNul(t1) && NoNul(t2) && AllNoNul(rest)
    requires var next := if |rest| > 0 then Some(rest[0]) else None;
      Loop(prog, t1, next, 0, o1) == Loop(prog, t2, next, 0, o2)
    ensures AllNoNul([t1] + rest) && AllNoNul([t2] + rest)
    ensures ScanArgs(prog, [t1] + rest, recips, o1) == ScanArgs(prog, [t2] + rest, recips, o2)
  {
    DashStep(prog, t1, rest, recips, o1);
    DashStep(prog, t2, rest, recips, o2);
  }

  lemma SplitOffLoop(prog: string, c: char, w: string, next: Option<string>, o: Options)
    requires FlagLetter(c) || (c == 'R' && |w| > 0)
    ensures Loop(prog, "-" + [c] + w, next, 0, o) == Loop(prog, "-" + w, next, 0, Toggle(c, o))
  {
    var t1 := "-" + [c] + w;
    var t2 := "-" + w;
    assert t1[1] == c && t1[2..] == w == t2[1..];
    assert Letter(prog, t1, next, 1, o) == Cont(1, Toggle(c, o));
    assert AgreeAfter(t1, 1, t2, 0);
    LoopShift(prog, t1, 1, t2, 0, next, Toggle(c, o));
  }

  /** A flag letter at the head of a bundle can be split off: `-tvX...` is
      scanned as `-vX...` with `-t` already applied. `-R` followed by more
      letters sets nothing and is dropped the same way. */
  lemma SplitOffFlag(prog: string, c: char, w: string, rest: seq<string>, recips: seq<string>, o: Options)
    requires FlagLetter(c) || (c == 'R' && |w| > 0)
    requires NoNul(w) && AllNoNul(rest)
    ensures ScanArgs(prog, ["-" + [c] + w] + rest, recips, o)
         == ScanArgs(prog, ["-" + w] + rest, recips, Toggle(c, o))
  {
    var t1 := "-" + [c] + w;
    var t2 := "-" + w;
    assert t1[0] == '-' && t1[1] == c && t2[0] == '-';
    assert NoNul(t1) && NoNul(t2);
    SplitOffLoop(prog, c, w, if |rest| > 0 then Some(rest[0]) else None, o);
    SameScan(prog, t1, t2, rest, recips, o, Toggle(c, o));
  }

  lemma OvLoop(prog: string, w: string, next: Option<string>, o: Options)
    ensures Loop(prog, "-ov" + w, next, 0, o) == Loop(prog, "-" + w, next, 0, o.(minusV := true))
  {
    var t1 := "-ov" + w;
    var t2 := "-" + w;
    assert t1[1] == 'o' && t1[2] == 'v' && t1[3..] == w == t2[1..];
    assert Letter(prog, t1, next, 1, o) == OCase(t1, 1, o);
    assert AgreeAfter(t1, 2, t2, 0);
    LoopShift(prog, t1, 2, t2, 0, next, o.(minusV := true));
  }

  /** `-ov` sets `minus_v` and keeps scanning, like `-v` (smailgun.c:901-903). */
  lemma SplitOffOv(prog: string, w: string, rest: seq<string>, recips: seq<string>, o: Options)
    requires NoNul(w) && AllNoNul(rest)
    ensures ScanArgs(prog, ["-ov" + w] + rest, recips, o)
         == ScanArgs(prog, ["-" + w] + rest, recips, o.(minusV := true))
  {
    var t1 := "-ov" + w;
    var t2 := "-" + w;
    assert t1[0] == '-' && t2[0] == '-';
    assert NoNul(t1) && NoNul(t2);
    OvLoop(prog, w, if |rest| > 0 then Some(rest[0]) else None, o);
    SameScan(prog, t1, t2, rest, recips, o, o.(minusV := true));
  }

  /** A lone `-` consumes itself and nothing else. */
  lemma LoneDash(prog: string, rest: seq<string>, recips: seq<string>, o: Options)
    requires AllNoNul(rest)
    ensures ScanArgs(prog, ["-"] + rest, recips, o) == ScanArgs(prog, rest, recips, o)
  {
    var next := if |rest| > 0 then Some(rest[0]) else None;
    assert Loop(prog, "-", next, 0, o) == Stop(o, 1);
    DashStep(prog, "-", rest, recips, o);
    assert rest[0..] == rest;
  }

  /** All the flags of a bundle, applied left to right. */
  function ToggleAll(w: string, o: Options): Options
    decreases |w|
  {
    if |w| == 0 then o else ToggleAll(w[1..], Toggle(w[0], o))
  }

  /** A token made only of flag letters, such as `-tv`, sets exactly the
      flags `-t -v` would and consumes nothing else. */
  lemma {:induction false} FlagBundle(prog: string, w: string, rest: seq<string>, recips: seq<string>, o: Options)
    requires forall i :: 0 <= i < |w| ==> FlagLetter(w[i])
    requires NoNul(w) && AllNoNul(rest)
    ensures ScanArgs(prog, ["-" + w] + rest, recips, o) == ScanArgs(prog, rest, recips, ToggleAll(w, o))
    decreases |w|
  {
    if |w| == 0 {
      assert "-" + w == "-";
      LoneDash(prog, rest, recips, o);
    } else {
      assert "-" + w == "-" + [w[0]] + w[1..];
      SplitOffFlag(prog, w[0], w[1..], rest, recips, o);
      FlagBundle(prog, w[1..], rest, recips, Toggle(w[0], o));
    }
  }
}
