/** The pieces of the C string library that the server calls, stated over
    Dafny strings. A C string is modelled by its characters without the
    terminating NUL; routines that write into memory work on `array<char>`
    buffers that hold the terminator explicitly. */
module CLib {

  datatype Option<T> = None | Some(value: T)

  const NUL: char := '\0'

  predicate IsNul(c: char) { c == NUL }

  /** The longest prefix of `s` in which `stop` holds of no character: the
      shape of strlen (stop at NUL), strpbrk (stop at a listed character)
      and of every scanning loop in the server. */
  function PrefixBefore(s: string, stop: char -> bool): (r: string)
    ensures r <= s
    ensures forall k :: 0 <= k < |r| ==> !stop(r[k])
    ensures |r| < |s| ==> stop(s[|r|])
  {
    if s == [] || stop(s[0]) then [] else [s[0]] + PrefixBefore(s[1..], stop)
  }

  /** The three properties of PrefixBefore determine it: a corollary of
      its ensures, since two prefixes of `s` that each stop where the
      other has no stop character have the same length. */
  lemma PrefixBeforeUnique(s: string, stop: char -> bool, t: string)
    requires t <= s
    requires forall k :: 0 <= k < |t| ==> !stop(t[k])
    requires |t| < |s| ==> stop(s[|t|])
    ensures PrefixBefore(s, stop) == t
  {
  }

  /** Every stop-free prefix of `s` is a prefix of the scan's result: a
      corollary of its ensures, as the scan stops only at a stop
      character or at the end. */
  lemma PrefixBeforeCovers(s: string, stop: char -> bool, t: string)
    requires t <= s
    requires forall k :: 0 <= k < |t| ==> !stop(t[k])
    ensures t <= PrefixBefore(s, stop)
  {
  }

  /** Scanning `t + rest` stops at the end of `t` when `rest` starts with a
      stop character (or is empty) and `t` holds none. */
  lemma PrefixBeforeConcat(t: string, rest: string, stop: char -> bool)
    requires forall k :: 0 <= k < |t| ==> !stop(t[k])
    requires rest == [] || stop(rest[0])
    ensures PrefixBefore(t + rest, stop) == t
  {
    PrefixBeforeUnique(t + rest, stop, t);
  }

  /** The string a NUL-terminated buffer spells: what strlen measures and
      what strdup, strcmp and printf("%s") see. */
  function CStr(s: string): (r: string)
    ensures r <= s && NUL !in r
    ensures |r| < |s| ==> s[|r|] == NUL
    ensures NUL !in s ==> r == s
  {
    PrefixBefore(s, IsNul)
  }

  /** A NUL-free prefix survives the cut at the first NUL. */
  lemma CStrConcat(t: string, rest: string)
    requires NUL !in t
    ensures CStr(t + rest) == t + CStr(rest)
  {
    var r := CStr(rest);
    assert t + rest == (t + r) + rest[|r|..];
    PrefixBeforeUnique(t + rest, IsNul, t + r);
  }

  /** At most `n` characters of `s`: what snprintf into a buffer of `n + 1`
      bytes keeps, and what strncpy of `n` bytes copies. */
  function Truncate(s: string, n: nat): (r: string)
    ensures r <= s
    ensures |r| == if |s| <= n then |s| else n
  {
    if |s| <= n then s else s[..n]
  }

  /** strncmp(a, b, n) == 0 for two C strings. */
  function StrNEq(a: string, b: string, n: nat): (r: bool)
    ensures r <==> (|a| < n || |b| < n ==> |a| == |b|)
                   && forall k :: 0 <= k < n && k < |a| && k < |b| ==> a[k] == b[k]
  {
    Truncate(a, n) == Truncate(b, n)
  }

  /** Comparing as many characters as `b` holds is a prefix test. */
  lemma StrNEqIsPrefix(a: string, b: string)
    ensures StrNEq(a, b, |b|) <==> b <= a
  {
    if |b| <= |a| {
      assert Truncate(a, |b|) == a[..|b|];
    } else {
      assert |Truncate(a, |b|)| < |b|;
    }
  }

  predicate OccursAt(s: string, pat: string, i: nat)
  {
    i + |pat| <= |s| && s[i..i + |pat|] == pat
  }

  /** strstr(s + from, pat), as an index into `s`. */
  function FindFrom(s: string, pat: string, from: nat): (r: Option<nat>)
    decreases |s| - from
    ensures r.Some? ==> from <= r.value && OccursAt(s, pat, r.value)
    ensures forall i :: from <= i && (r.None? || i < r.value) ==> !OccursAt(s, pat, i)
  {
    if from + |pat| > |s| then None
    else if s[from..from + |pat|] == pat then Some(from)
    else FindFrom(s, pat, from + 1)
  }

  /** strstr(s, pat): the first position at which `pat` occurs. */
  function Find(s: string, pat: string): (r: Option<nat>)
    ensures r.Some? ==> OccursAt(s, pat, r.value)
    ensures forall i: nat :: (r.None? || i < r.value) ==> !OccursAt(s, pat, i)
  {
    FindFrom(s, pat, 0)
  }

  /** strcpy(dst, s): the characters of `s` and a terminator. */
  method StrCpy(dst: array<char>, s: string)
    requires NUL !in s && |s| < dst.Length
    modifies dst
    ensures CStr(dst[..]) == s
    ensures dst[|s| + 1..] == old(dst[|s| + 1..])
  {
    forall k | 0 <= k < |s| {
      dst[k] := s[k];
    }
    dst[|s|] := NUL;
    assert dst[..] == s + dst[|s|..];
    PrefixBeforeConcat(s, dst[|s|..], IsNul);
  }

  /** strncpy(dst, src + from, n): the C string starting at `from`, cut to
      `n` characters, padded with NUL up to `n`; no terminator is written
      when the source string is `n` characters or longer. */
  method StrNCpy(dst: array<char>, src: array<char>, from: nat, n: nat)
    requires dst != src && n <= dst.Length
    requires from < src.Length && src[src.Length - 1] == NUL
    modifies dst
    ensures dst[..n] == NulPad(Truncate(CStr(src[from..]), n), n)
    ensures dst[n..] == old(dst[n..])
  {
    var source := src[from..];
    var padded := NulPad(Truncate(CStr(source), n), n);
    forall k | 0 <= k < n {
      dst[k] := padded[k];
    }
    assert src[from..] == source;
    assert dst[..n] == padded;
  }

  /** `s` followed by NUL bytes up to length `n`. */
  function NulPad(s: string, n: nat): (r: string)
    requires |s| <= n
    ensures |r| == n && r[..|s|] == s
    ensures forall k :: |s| <= k < n ==> r[k] == NUL
  {
    s + seq(n - |s|, _ => NUL)
  }
}
