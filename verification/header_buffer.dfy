/** The buffer arithmetic of `header_parse` (smailgun.c:338-389): the block `p`
    that `realloc` grows by BUF_SZ bytes, the count `len` that decides when it
    grows, and the write cursor `q`.

    `HeaderReader` keeps the pending header as a sequence. Here the same
    bytes are written into a block of fixed size, once as the source does it
    and once with `len` kept equal to the cursor. As written, `len` is reset
    to 0 when a header is handed on, although the byte written next makes
    the cursor 1; from then on the cursor is one ahead of `len`. When the
    block grows, the cursor is recomputed from `len` and the next byte
    overwrites the last one written; and a fold written just before the
    block would grow runs one byte past its end. */
module HeaderBuffer {
  import opened CStrings
  import opened HeaderReader

  /** BUF_SZ (smailgun.c:52-54). */
  const BufSz: nat := 1024

  /** The block `p[0..|mem|)`, the recorded `size`, and `len` and `q` as
      offsets from `p`. Before the first byte `p` is NULL: the block is
      empty. */
  datatype Block = Block(mem: string, size: nat, len: nat, q: nat)

  const Fresh: Block := Block([], BufSz, 0, 0)

  /** `realloc(mem, n)`: the old bytes are kept; the new ones are
      unspecified, and NUL here. */
  function Realloc(mem: string, n: nat): (m: string)
    requires |mem| <= n
    ensures |m| == n && m[..|mem|] == mem
  {
    mem + seq(n - |mem|, _ => NUL)
  }

  /** The loop head (smailgun.c:348-356): when `p` is NULL or `len` has
      reached `size - 1`, the block grows by BUF_SZ and the cursor is
      recomputed from `len`. */
  function Grow(b: Block): (g: Block)
    requires |b.mem| <= b.size
    ensures g.len == b.len && |g.mem| <= g.size
  {
    if |b.mem| == 0 || b.len + 1 >= b.size then
      var size := b.size + BufSz;
      Block(Realloc(b.mem, size), size, b.len, b.len)
    else b
  }

  /** Byte `c`, read after `last`, written as smailgun.c:348-389 writes it;
      `None` when a write falls outside the block. With `fixed` the byte
      written after a completed header is counted in `len`; the source does
      not count it. The NUL that `strrchr` leaves at the header's last LF
      lies beyond the new cursor and is never read again, so it is not
      recorded. */
  function Put(b: Block, last: char, c: char, fixed: bool): (r: Option<Block>)
    requires |b.mem| <= b.size
    ensures r.Some? ==> |r.value.mem| <= r.value.size
  {
    var g := Grow(b);
    var n := |g.mem|;
    if last == '\n' && IsWsp(c) then
      // A fold: `*(q - 1) = '\r'; *q++ = '\n';` and then `*q++ = c;`.
      if 0 < g.q && g.q + 1 < n then
        Some(Block(g.mem[g.q - 1 := '\r'][g.q := '\n'][g.q + 1 := c], g.size, g.len + 2, g.q + 2))
      else None
    else if last == '\n' then
      // A completed header: `*q = '\0';`, then `q = p; len = 0;` and `*q++ = c;`.
      if g.q < n then Some(Block(g.mem[g.q := NUL][0 := c], g.size, if fixed then 1 else 0, 1))
      else None
    else if g.q < n then Some(Block(g.mem[g.q := c], g.size, g.len + 1, g.q + 1))
    else None
  }

  /** The reading loop with the block: the reader decides what each byte
      does, the block records where it is written. */
  function Feed(b: Block, r: Reader, input: string, fixed: bool): (f: Option<Block>)
    requires Inv(r) && |b.mem| <= b.size
    ensures f.Some? ==> |f.value.mem| <= f.value.size
    decreases |input|
  {
    if |input| == 0 || !r.inHeader then Some(b)
    else
      match Put(b, r.last, input[0], fixed)
      case None => None
      case Some(b') => Feed(b', Step(r, input[0]), input[1..], fixed)
  }

  lemma {:induction false} FeedAppend(b: Block, r: Reader, a: string, s: string, fixed: bool)
    requires Inv(r) && |b.mem| <= b.size
    ensures Feed(b, r, a + s, fixed) ==
      if Feed(b, r, a, fixed).Some? then Feed(Feed(b, r, a, fixed).value, Run(r, a), s, fixed) else None
    decreases |a|
  {
    if |a| == 0 {
      assert a + s == s;
    } else if r.inHeader {
      assert (a + s)[0] == a[0] && (a + s)[1..] == a[1..] + s;
      match Put(b, r.last, a[0], fixed)
      case None =>
      case Some(b') => FeedAppend(b', Step(r, a[0]), a[1..], s, fixed);
    }
  }

  // ---------------------------------------------------------------------------
  // Corrected: `len` counts every byte written, so it always equals the cursor.

  /** The block holds exactly the reader's pending header, and once
      allocated it is `size` bytes long. */
  predicate Holds(b: Block, r: Reader) {
    && b.len == b.q == |r.buf|
    && b.q <= |b.mem| <= b.size
    && (|b.mem| > 0 ==> |b.mem| == b.size)
    && b.mem[..b.q] == r.buf
  }

  /** With `len` kept equal to the cursor, one byte never writes outside
      the block, the block keeps holding the reader's pending header, and a
      completed header hands on the same line as the reader. */
  lemma CorrectedPut(b: Block, r: Reader, c: char)
    requires Holds(b, r) && Inv(r) && r.inHeader
    ensures Put(b, r.last, c, true).Some?
    ensures Holds(Put(b, r.last, c, true).value, Step(r, c))
    ensures Flush(Grow(b).mem[..Grow(b).q]) == Flush(r.buf)
  {
    var g := Grow(b);
    assert g.q + 1 < |g.mem| && g.mem[..g.q] == r.buf by {
      if |b.mem| == 0 || b.len + 1 >= b.size {
        assert g.mem[..b.q] == g.mem[..|b.mem|][..b.q];
      }
    }
    var b' := Put(b, r.last, c, true).value;
    if r.last == '\n' && IsWsp(c) {
      var k := g.q - 1;
      assert b'.mem[..g.q + 2] == g.mem[..k] + ['\r', '\n', c];
      assert g.mem[..k] == r.buf[..|r.buf| - 1];
    } else if r.last == '\n' {
      assert b'.mem[..1] == [c];
    } else {
      assert b'.mem[..g.q + 1] == g.mem[..g.q] + [c];
    }
  }

  /** The flush at end of input (smailgun.c:391-412) writes `*q = '\0'` only
      when the section is still open and the last byte was LF; the write is
      inside the block when the cursor is. */
  predicate EofFlushFits(b: Block, r: Reader) {
    r.inHeader && r.last == '\n' ==> b.q < |b.mem|
  }

  /** With `len` kept equal to the cursor, an LF always leaves room after it. */
  lemma CorrectedLf(b: Block, r: Reader)
    requires Holds(b, r) && Inv(r) && r.inHeader
    ensures Put(b, r.last, '\n', true).Some?
    ensures Put(b, r.last, '\n', true).value.q < |Put(b, r.last, '\n', true).value.mem|
  {
    var g := Grow(b);
    assert g.q + 1 < |g.mem|;
  }

  lemma {:induction false} CorrectedRun(b: Block, r: Reader, input: string)
    requires Holds(b, r) && Inv(r) && EofFlushFits(b, r)
    ensures Feed(b, r, input, true).Some?
    ensures Holds(Feed(b, r, input, true).value, Run(r, input))
    ensures EofFlushFits(Feed(b, r, input, true).value, Run(r, input))
    decreases |input|
  {
    if |input| > 0 && r.inHeader {
      CorrectedPut(b, r, input[0]);
      if input[0] == '\n' {
        CorrectedLf(b, r);
      }
      CorrectedRun(Put(b, r.last, input[0], true).value, Step(r, input[0]), input[1..]);
    }
  }

  /** For every input, the corrected block never writes outside its
      allocation, also not in the flush at end of input, and always holds
      the pending header of the sequence model, so it hands on exactly the
      lines `HeaderLines` describes. */
  lemma CorrectedMatchesReader(input: string)
    ensures Feed(Fresh, Start, input, true).Some?
    ensures var b := Feed(Fresh, Start, input, true).value;
      b.q <= |b.mem| && b.mem[..b.q] == Run(Start, input).buf
    ensures EofFlushFits(Feed(Fresh, Start, input, true).value, Run(Start, input))
  {
    CorrectedRun(Fresh, Start, input);
  }

  // ---------------------------------------------------------------------------
  // As written: after the first completed header the cursor runs one ahead.

  /** A completed header leaves the cursor one byte ahead of `len`. */
  lemma AsWrittenDrift(b: Block, c: char)
    requires |b.mem| <= b.size && !IsWsp(c) && Put(b, '\n', c, false).Some?
    ensures Put(b, '\n', c, false).value.q == Put(b, '\n', c, false).value.len + 1
  {
  }

  function Rep(n: nat, c: char): (s: string)
    ensures |s| == n && forall i :: 0 <= i < n ==> s[i] == c
  {
    seq(n, _ => c)
  }

  /** A run of bytes without LF that does not reach the growth point: each
      byte lands at the cursor, and the drift stays. */
  lemma {:induction false} AsWrittenNoLf(b: Block, r: Reader, s: string)
    requires Inv(r) && r.inHeader && r.last != '\n' && NoLf(s)
    requires |b.mem| == b.size && b.q == b.len + 1 && b.len + |s| < b.size
    ensures Feed(b, r, s, false).Some?
    ensures var f := Feed(b, r, s, false).value;
      && |f.mem| == f.size == b.size && f.len == b.len + |s| && f.q == b.q + |s|
      && f.mem[..f.q] == b.mem[..b.q] + s
    decreases |s|
  {
    if |s| == 0 {
      assert b.mem[..b.q] + s == b.mem[..b.q];
    } else {
      var b1 := Put(b, r.last, s[0], false).value;
      assert b1.mem[..b1.q] == b.mem[..b.q] + [s[0]];
      assert NoLf(s[1..]);
      AsWrittenNoLf(b1, Step(r, s[0]), s[1..]);
      assert b.mem[..b.q] + [s[0]] + s[1..] == b.mem[..b.q] + s;
    }
  }

  /** The block after the first header `A` and one byte `x` of the second. */
  lemma AfterFirstHeader()
    ensures Feed(Fresh, Start, "A\nx", false).Some?
    ensures var b := Feed(Fresh, Start, "A\nx", false).value;
      |b.mem| == b.size == 2 * BufSz && b.len == 0 && b.q == 1 && b.mem[..1] == "x"
    ensures Run(Start, "A\nx") == Reader("x", 'x', ["A"], true)
  {
    var b1 := Put(Fresh, NUL, 'A', false).value;
    var r1 := Step(Start, 'A');
    var b2 := Put(b1, 'A', '\n', false).value;
    var r2 := Step(r1, '\n');
    assert Flush("A\n") == "A" by {
      assert CStr("A\n") == "A\n";
    }
    var b3 := Put(b2, '\n', 'x', false).value;
    assert Feed(b3, Step(r2, 'x'), [], false) == Some(b3);
  }

  /** Two headers, the second 2049 bytes long before its LF. */
  const LongSecond: string := "A\n" + Rep(2 * BufSz, 'x') + "y"

  /** A full block with the cursor one ahead of `len`: growing it moves the
      cursor back onto the last byte written, and the next byte replaces it. */
  lemma Overwrite(b: Block, c: char)
    requires |b.mem| == b.size && b.q == b.len + 1 == b.size
    ensures Put(b, 'x', c, false).Some?
    ensures var b' := Put(b, 'x', c, false).value;
      b'.q == b.q && b'.mem[..b'.q] == b.mem[..b.q - 1] + [c]
  {
    var g := Grow(b);
    assert g.q == b.len && g.mem[..|b.mem|] == b.mem;
    var b' := Put(b, 'x', c, false).value;
    assert b'.mem[..b'.q] == g.mem[..g.q] + [c];
    assert g.mem[..g.q] == b.mem[..b.q - 1];
  }

  lemma RepCons(n: nat, c: char)
    ensures [c] + Rep(n, c) == Rep(n + 1, c)
    ensures ([c] + Rep(n, c))[..n] == Rep(n, c)
  {
  }

  /** The block and the reader after `A`, its LF and the bytes `x` + `xs`
      of the second header, short of the growth point: the cursor is one
      ahead of `len`. */
  lemma SecondHeader(xs: string)
    requires NoLf(xs) && |xs| < 2 * BufSz
    ensures Feed(Fresh, Start, "A\nx" + xs, false).Some?
    ensures var b := Feed(Fresh, Start, "A\nx" + xs, false).value;
      && |b.mem| == b.size == 2 * BufSz && b.len == |xs| && b.q == |xs| + 1
      && b.mem[..b.q] == "x" + xs
    ensures Run(Start, "A\nx" + xs) == Reader("x" + xs, if |xs| == 0 then 'x' else xs[|xs| - 1], ["A"], true)
  {
    AfterFirstHeader();
    var b3 := Feed(Fresh, Start, "A\nx", false).value;
    var r3 := Run(Start, "A\nx");
    FeedAppend(Fresh, Start, "A\nx", xs, false);
    RunAppend(Start, "A\nx", xs);
    AsWrittenNoLf(b3, r3, xs);
    RunNoLf(r3, xs);
  }

  /** A byte lost: in the second header, the byte read when `len` reaches
      `size - 1` overwrites the one before it, so the block holds 2048 bytes
      where the header has 2049. */
  lemma AsWrittenLosesByte()
    ensures Feed(Fresh, Start, LongSecond, false).Some?
    ensures var b := Feed(Fresh, Start, LongSecond, false).value;
      b.q <= |b.mem| && b.mem[..b.q] == Rep(2 * BufSz - 1, 'x') + "y"
    ensures Run(Start, LongSecond).buf == Rep(2 * BufSz, 'x') + "y"
  {
    var xs := Rep(2 * BufSz - 1, 'x');
    var w := "A\nx" + xs;
    RepCons(2 * BufSz - 1, 'x');
    assert LongSecond == w + "y";
    SecondHeader(xs);
    var b4 := Feed(Fresh, Start, w, false).value;
    var r4 := Run(Start, w);
    FeedAppend(Fresh, Start, w, "y", false);
    RunAppend(Start, w, "y");
    Overwrite(b4, 'y');
    var b5 := Put(b4, 'x', 'y', false).value;
    assert Feed(b4, r4, "y", false) == Feed(b5, Step(r4, 'y'), [], false);
    assert b4.mem[..b4.q - 1] == xs;
  }

  /** Two headers, the second ending in a fold just below the growth point. */
  const LateFold: string := "A\n" + Rep(2 * BufSz - 2, 'x') + "\n "

  /** An LF and then a fold when `len` is `size - 3`: no growth happens, and
      the fold's last write lands one byte past the block. */
  lemma FoldPastEnd(b: Block, r: Reader)
    requires Inv(r) && r.inHeader && r.last != '\n'
    requires |b.mem| == b.size && b.q == b.len + 1 && b.len + 3 == b.size
    ensures Feed(b, r, "\n ", false).None?
  {
    var b1 := Put(b, r.last, '\n', false).value;
    assert b1.q + 1 == |b1.mem| && b1.len + 2 == b1.size;
    assert Put(b1, '\n', ' ', false).None?;
    assert Feed(b, r, "\n ", false) == Feed(b1, Step(r, '\n'), " ", false);
  }

  /** A write past the end: the fold's `*q++ = c` lands one byte beyond the
      2048-byte block, while the corrected block has room for it. */
  lemma AsWrittenOverruns()
    ensures Feed(Fresh, Start, LateFold, false).None?
    ensures Feed(Fresh, Start, LateFold, true).Some?
  {
    CorrectedMatchesReader(LateFold);
    var xs := Rep(2 * BufSz - 3, 'x');
    var w := "A\nx" + xs;
    RepCons(2 * BufSz - 3, 'x');
    assert LateFold == w + "\n ";
    SecondHeader(xs);
    FeedAppend(Fresh, Start, w, "\n ", false);
    FoldPastEnd(Feed(Fresh, Start, w, false).value, Run(Start, w));
  }

  /** Two headers, the second ending in its LF just below the growth point,
      and then the end of input. */
  const LateEof: string := "A\n" + Rep(2 * BufSz - 1, 'x') + "\n"

  /** A write past the end at end of input: the last LF fills the block's
      last byte, and the flush's `*q = '\0'` lands one byte beyond the
      2048-byte block; the corrected block has room for it. */
  lemma AsWrittenEofOverruns()
    ensures Feed(Fresh, Start, LateEof, false).Some?
    ensures !EofFlushFits(Feed(Fresh, Start, LateEof, false).value, Run(Start, LateEof))
    ensures Feed(Fresh, Start, LateEof, true).Some?
    ensures EofFlushFits(Feed(Fresh, Start, LateEof, true).value, Run(Start, LateEof))
  {
    CorrectedMatchesReader(LateEof);
    var xs := Rep(2 * BufSz - 2, 'x');
    var w := "A\nx" + xs;
    RepCons(2 * BufSz - 2, 'x');
    assert LateEof == w + "\n";
    SecondHeader(xs);
    var b4 := Feed(Fresh, Start, w, false).value;
    var r4 := Run(Start, w);
    FeedAppend(Fresh, Start, w, "\n", false);
    RunAppend(Start, w, "\n");
    var b5 := Put(b4, r4.last, '\n', false).value;
    assert b5.q == |b5.mem|;
    assert Feed(b4, r4, "\n", false) == Feed(b5, Step(r4, '\n'), [], false);
  }
}
