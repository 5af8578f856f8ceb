/** C string conventions shared by every parser of smailgun.c.

    A byte is modelled as a `char`; a C string is a `string` that holds no NUL
    byte (the NUL is the terminator, not part of the value). */
module CStrings {

  datatype Option<T> = None | Some(value: T)

  const NUL: char := '\0'

  /** A value that can live in a C string: no embedded terminator. */
  predicate NoNul(s: string) {
    forall i :: 0 <= i < |s| ==> s[i] != NUL
  }

  /** A list of C strings, such as `argv` or a list of tokens. */
  predicate AllNoNul(ss: seq<string>) {
    forall i :: 0 <= i < |ss| ==> NoNul(ss[i])
  }

  /** `isspace` in the C locale: space, tab, newline, vertical tab, form feed, carriage return. */
  predicate IsSpace(c: char) {
    c == ' ' || c == '\t' || c == '\n' || c == '\U{B}' || c == '\U{C}' || c == '\r'
  }

  /** `tolower` on ASCII letters; every other byte is left alone. */
  function Lower(c: char): (r: char)
    ensures 'A' <= c <= 'Z' ==> r as int == c as int + 32
    ensures !('A' <= c <= 'Z') ==> r == c
  {
    if 'A' <= c <= 'Z' then (c as int + 32) as char else c
  }

  /** `strncasecmp(s, p, |p|) == 0` for a C string `s`: the first |p| bytes of `s`
      match `p` ignoring ASCII case. A shorter `s` fails, since its terminator
      meets a non-NUL byte of `p`. */
  predicate HasPrefixCI(s: string, p: string) {
    |s| >= |p| && forall i :: 0 <= i < |p| ==> Lower(s[i]) == Lower(p[i])
  }

  /** Every byte of `s` through `tolower`. */
  function LowerAll(s: string): (r: string)
    ensures |r| == |s| && forall i :: 0 <= i < |s| ==> r[i] == Lower(s[i])
  {
    seq(|s|, i requires 0 <= i < |s| => Lower(s[i]))
  }

  /** The prefix test is case-blind: it holds exactly when the first |p|
      bytes of `s`, lowered, are `p` lowered; in particular for the lower- and
      the upper-case spelling of an ASCII prefix alike. */
  lemma HasPrefixCILowered(s: string, p: string)
    ensures HasPrefixCI(s, p) <==> |s| >= |p| && LowerAll(s[..|p|]) == LowerAll(p)
    ensures HasPrefixCI(s, p) <==> HasPrefixCI(s, LowerAll(p))
  {
    if |s| >= |p| && LowerAll(s[..|p|]) == LowerAll(p) {
      forall i | 0 <= i < |p| ensures Lower(s[i]) == Lower(p[i]) {
        assert LowerAll(s[..|p|])[i] == Lower(s[i]);
      }
    }
    forall c: char ensures Lower(Lower(c)) == Lower(c) {
    }
  }

  /** The C string a byte buffer denotes: everything before its first NUL. */
  function CStr(s: string): (r: string)
    ensures |r| <= |s| && r == s[..|r|]
    ensures NoNul(r)
    ensures |r| < |s| ==> s[|r|] == NUL
  {
    if |s| == 0 || s[0] == NUL then [] else [s[0]] + CStr(s[1..])
  }

  /** Skipping leading `isspace` bytes, as `while (*r && isspace(*r)) r++` does. */
  function LTrim(s: string): string {
    if |s| > 0 && IsSpace(s[0]) then LTrim(s[1..]) else s
  }

  /** The trimmed text is a suffix of `s`, every byte dropped is a space, and
      the result does not start with one. */
  lemma {:induction false} LTrimSpec(s: string)
    ensures |LTrim(s)| <= |s| && LTrim(s) == s[|s| - |LTrim(s)|..]
    ensures forall i :: 0 <= i < |s| - |LTrim(s)| ==> IsSpace(s[i])
    ensures |LTrim(s)| > 0 ==> !IsSpace(LTrim(s)[0])
  {
    if |s| > 0 && IsSpace(s[0]) {
      LTrimSpec(s[1..]);
    }
  }

  /** Position of the last `c` in `s`, as `strrchr(s, c)` finds it. */
  function LastIndexOf(s: string, c: char): (k: Option<nat>)
    ensures k.Some? ==> k.value < |s| && s[k.value] == c
    ensures k.Some? ==> forall j :: k.value < j < |s| ==> s[j] != c
    ensures k.None? ==> forall j :: 0 <= j < |s| ==> s[j] != c
  {
    if |s| == 0 then None
    else if s[|s| - 1] == c then Some(|s| - 1)
    else LastIndexOf(s[..|s| - 1], c)
  }

  /** `_strndup(s, n)` (smailgun.c:99-105): a fresh string holding exactly the first `n` bytes. */
  function Strndup(s: string, n: nat): (r: string)
    requires n <= |s|
    ensures |r| == n
    ensures forall i :: 0 <= i < n ==> r[i] == s[i]
  {
    s[..n]
  }

  /** Index of the first byte of `s` in `delims`, or |s| when there is none (`strpbrk`). */
  function FirstIndexIn(s: string, delims: set<char>): (k: nat)
    requires NoNul(s) && NUL !in delims
    ensures k <= |s|
    ensures forall i :: 0 <= i < k ==> s[i] !in delims
    ensures k < |s| ==> s[k] in delims
  {
    if |s| == 0 then 0
    else if s[0] in delims then 0
    else 1 + FirstIndexIn(s[1..], delims)
  }

  /** `firsttok(&s, delim)` (smailgun.c:437-451): no token when no delimiter occurs;
      otherwise the text before the first delimiter and the text after it. */
  function FirstTok(s: string, delims: set<char>): (r: Option<(string, string)>)
    requires NoNul(s) && NUL !in delims
    ensures r.None? <==> forall i :: 0 <= i < |s| ==> s[i] !in delims
    ensures r.Some? ==>
      var (tok, rest) := r.value;
      && |tok| < |s|
      && s[|tok|] in delims
      && tok + [s[|tok|]] + rest == s
      && forall i :: 0 <= i < |tok| ==> tok[i] !in delims
  {
    var k := FirstIndexIn(s, delims);
    if k == |s| then None
    else
      var tok := Strndup(s, k);
      assert tok == s[..k];
      assert tok + [s[k]] + s[k + 1..] == s;
      Some((tok, s[k + 1..]))
  }
}
