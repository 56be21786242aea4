/** Request parsing in handle_client: the method test, the path copy and
    the User-Agent extraction, over the NUL-terminated copy of the
    received bytes. The Request record is a class whose two string fields
    are BUFFER_SIZE arrays filled in place. */
module Parser {
  import opened CLib
  import opened ServerH

  const USER_AGENT := "User-Agent:"
  const UNKNOWN := "Unknown"

  /** The offset the path copy starts from, as the source writes it. */
  const PATH_OFFSET := 4

  predicate IsSpace(c: char) { c == ' ' }

  predicate IsLineBreak(c: char) { c == '\r' || c == '\n' }

  /** strncmp against "GET" over 3 characters, then against "POST" over 4:
      the first three letters decide GET whatever follows them, and any
      other start is rejected. */
  function ClassifyMethod(content: string): (m: Option<HttpMethod>)
    ensures m == Some(Get) <==> "GET" <= content
    ensures m == Some(Post) <==> !("GET" <= content) && "POST" <= content
    ensures m == None <==> !("GET" <= content) && !("POST" <= content)
  {
    StrNEqIsPrefix(content, "GET");
    StrNEqIsPrefix(content, "POST");
    if StrNEq(content, "GET", 3) then Some(Get)
    else if StrNEq(content, "POST", 4) then Some(Post)
    else None
  }

  /** Where the path copy starts: offset 4, or the terminator when the
      string is shorter (only "GET" itself is accepted and shorter). */
  function PathStart(content: string): (i: nat)
    ensures i <= |content|
    ensures |content| >= PATH_OFFSET ==> i == PATH_OFFSET
  {
    if |content| < PATH_OFFSET then |content| else PATH_OFFSET
  }

  /** The request path: the characters from the start offset up to the
      first space or the end of the string, at most BUFFER_SIZE - 1 of them. */
  function PathOf(content: string): (path: string)
    ensures |path| < BUFFER_SIZE
    ensures forall k :: 0 <= k < |path| ==> path[k] != ' '
    ensures path <= content[PathStart(content)..]
    ensures |path| < BUFFER_SIZE - 1 && PathStart(content) + |path| < |content|
            ==> content[PathStart(content) + |path|] == ' '
  {
    Truncate(PrefixBefore(content[PathStart(content)..], IsSpace), BUFFER_SIZE - 1)
  }

  /** As written, the bare request "GET" is accepted and the path read
      begins at offset 4, past the terminator at offset 3 of its 4-byte
      copy; this is the only accepted input for which the offset is out of
      bounds, and for every other one the start used here is offset 4. */
  lemma {:induction false} BareGetReadsPastCopy(content: string)
    requires ClassifyMethod(content).Some?
    ensures PATH_OFFSET > |content| <==> content == "GET"
    ensures content != "GET" ==> PathStart(content) == PATH_OFFSET
  {
    if "GET" <= content && |content| == 3 {
      assert content == content[..3] == "GET";
    }
  }

  /** A request line: the four characters of the method field, the target
      up to the next space, the rest. The path is the target. */
  lemma PathOfRequestLine(content: string, head: string, target: string, tail: string)
    requires content == head + target + tail && |head| == PATH_OFFSET
    requires ' ' !in target && |target| < BUFFER_SIZE
    requires tail == [] || tail[0] == ' '
    ensures PathOf(content) == target
  {
    assert content[PathStart(content)..] == target + tail;
    PrefixBeforeConcat(target, tail, IsSpace);
  }

  predicate NotSpace(c: char) { c != ' ' }

  /** Leading spaces dropped: the pointer advanced past every space. */
  function SkipSpaces(s: string): (r: string)
    ensures r == [] || r[0] != ' '
  {
    s[|PrefixBefore(s, NotSpace)|..]
  }

  function Spaces(n: nat): (r: string)
    ensures |r| == n && forall k :: 0 <= k < n ==> r[k] == ' '
  {
    if n == 0 then [] else [' '] + Spaces(n - 1)
  }

  lemma SkipSpacesOver(n: nat, rest: string)
    requires rest == [] || rest[0] != ' '
    ensures SkipSpaces(Spaces(n) + rest) == rest
  {
    PrefixBeforeConcat(Spaces(n), rest, NotSpace);
  }

  /** The header value at the start of `rest`: up to the first CR or LF,
      at most BUFFER_SIZE - 1 characters, stopping short of the line's end
      only at that cap. */
  function LineValue(rest: string): (v: string)
    ensures |v| < BUFFER_SIZE && v <= rest
    ensures forall k :: 0 <= k < |v| ==> !IsLineBreak(v[k])
    ensures |v| < BUFFER_SIZE - 1 ==> |v| == |rest| || IsLineBreak(rest[|v|])
  {
    Truncate(PrefixBefore(rest, IsLineBreak), BUFFER_SIZE - 1)
  }

  /** The User-Agent value: after the first "User-Agent:", leading spaces
      dropped, up to the first CR or LF, at most BUFFER_SIZE - 1
      characters; "Unknown" when the header name occurs nowhere. */
  function UserAgentOf(content: string): (ua: string)
    ensures |ua| < BUFFER_SIZE
    ensures forall k :: 0 <= k < |ua| ==> !IsLineBreak(ua[k])
    ensures NUL !in content ==> NUL !in ua
    ensures Find(content, USER_AGENT).None? ==> ua == UNKNOWN
    ensures Find(content, USER_AGENT).Some? ==>
              ua <= SkipSpaces(content[Find(content, USER_AGENT).value + |USER_AGENT|..])
              && (ua == [] || ua[0] != ' ')
    ensures Find(content, USER_AGENT).Some? && |ua| < BUFFER_SIZE - 1 ==>
              var rest := SkipSpaces(content[Find(content, USER_AGENT).value + |USER_AGENT|..]);
              |ua| == |rest| || IsLineBreak(rest[|ua|])
  {
    match Find(content, USER_AGENT)
    case None => UNKNOWN
    case Some(i) =>
      var rest := SkipSpaces(content[i + |USER_AGENT|..]);
      assert NUL !in content ==> NUL !in rest by {
        assert forall c :: c in rest ==> c in content;
      }
      var v := LineValue(rest);
      assert NUL !in rest ==> NUL !in v by {
        assert forall c :: c in v ==> c in rest;
      }
      v
  }

  /** A header line "User-Agent:" + spaces + value, ended by CR, LF or the
      end of the request, yields `value` cut to BUFFER_SIZE - 1 characters. */
  lemma UserAgentRoundTrip(content: string, i: nat, spaces: nat, value: string, tail: string)
    requires Find(content, USER_AGENT) == Some(i)
    requires content[i + |USER_AGENT|..] == Spaces(spaces) + value + tail
    requires value == [] || value[0] != ' '
    requires forall k :: 0 <= k < |value| ==> !IsLineBreak(value[k])
    requires tail == [] || IsLineBreak(tail[0])
    ensures UserAgentOf(content) == Truncate(value, BUFFER_SIZE - 1)
  {
    assert Spaces(spaces) + value + tail == Spaces(spaces) + (value + tail);
    SkipSpacesOver(spaces, value + tail);
    PrefixBeforeConcat(value, tail, IsLineBreak);
    assert UserAgentOf(content) == LineValue(value + tail);
  }

  /** A NUL-terminated buffer with no NUL before its last cell. */
  predicate IsCString(a: array<char>)
    reads a
  {
    a.Length > 0 && a[a.Length - 1] == NUL && forall k :: 0 <= k < a.Length - 1 ==> a[k] != NUL
  }

  /** What the path loop leaves behind determines PathOf. */
  lemma PathScan(text: string, n: nat)
    requires PathStart(text) + n <= |text| && n <= BUFFER_SIZE - 1
    requires forall k :: PathStart(text) <= k < PathStart(text) + n ==> text[k] != ' '
    requires n == BUFFER_SIZE - 1 || PathStart(text) + n == |text| || text[PathStart(text) + n] == ' '
    ensures PathOf(text) == text[PathStart(text)..PathStart(text) + n]
  {
    var s := PathStart(text);
    var t := text[s..s + n];
    assert t <= text[s..];
    if n == BUFFER_SIZE - 1 {
      PrefixBeforeCovers(text[s..], IsSpace, t);
    } else {
      PrefixBeforeUnique(text[s..], IsSpace, t);
    }
  }

  /** The header's Request record, filled in place by handle_client. */
  class Request {
    var httpMethod: HttpMethod
    const path: array<char>
    const userAgent: array<char>

    ghost predicate Valid()
    {
      path.Length == BUFFER_SIZE && userAgent.Length == BUFFER_SIZE && path != userAgent
    }

    constructor ()
      ensures Valid() && fresh(path) && fresh(userAgent)
    {
      httpMethod := Get;
      path := new char[BUFFER_SIZE];
      userAgent := new char[BUFFER_SIZE];
    }

    /** The path copy loop: characters are copied from the start offset
        until a space, the terminator or BUFFER_SIZE - 1 characters, then
        the path is terminated. */
    method ReadPath(content: array<char>)
      requires Valid() && IsCString(content) && content != path
      modifies path
      ensures CStr(path[..]) == PathOf(content[..content.Length - 1])
    {
      ghost var text := content[..content.Length - 1];
      var s := if content.Length - 1 < PATH_OFFSET then content.Length - 1 else PATH_OFFSET;
      assert s == PathStart(text);
      var n := 0;
      while content[s + n] != ' ' && content[s + n] != NUL && n < BUFFER_SIZE - 1
        invariant n <= BUFFER_SIZE - 1 && s + n < content.Length
        invariant path[..n] == text[s..s + n]
        invariant forall k :: s <= k < s + n ==> text[k] != ' '
        decreases BUFFER_SIZE - 1 - n
      {
        path[n] := content[s + n];
        n := n + 1;
      }
      path[n] := NUL;
      PathScan(text, n);
      assert path[..] == path[..n] + path[n..];
      assert path[n..][0] == NUL;
      assert forall k :: 0 <= k < n ==> path[..n][k] == text[s + k] != NUL;
      PrefixBeforeConcat(path[..n], path[n..], IsNul);
    }

    /** The User-Agent extraction: strstr for the header name, the loop
        over the spaces after it, a NUL written over the first CR or LF
        (into the copy of the request), and strncpy of at most
        BUFFER_SIZE - 1 characters with a terminator in the last cell;
        strcpy of "Unknown" when the header name is absent. */
    method ReadUserAgent(content: array<char>)
      requires Valid() && IsCString(content) && content != userAgent
      modifies content, userAgent
      ensures CStr(userAgent[..]) == UserAgentOf(old(content[..content.Length - 1]))
    {
      var text := content[..content.Length - 1];
      var found := Find(text, USER_AGENT);
      if found.Some? {
        var start := SkipSpacesFrom(content, found.value + |USER_AGENT|);
        ghost var line := PrefixBefore(text[start..], IsLineBreak);
        assert UserAgentOf(text) == Truncate(line, BUFFER_SIZE - 1);
        CutAtLineBreak(content, start);
        StrNCpy(userAgent, content, start, BUFFER_SIZE - 1);
        userAgent[BUFFER_SIZE - 1] := NUL;
        TerminatedCopy(userAgent[..], line);
      } else {
        StrCpy(userAgent, UNKNOWN);
      }
    }
  }

  /** strncpy of BUFFER_SIZE - 1 characters followed by a terminator in the
      last cell spells the value cut to BUFFER_SIZE - 1 characters. */
  lemma TerminatedCopy(buf: string, line: string)
    requires |buf| == BUFFER_SIZE && buf[BUFFER_SIZE - 1] == NUL && NUL !in line
    requires buf[..BUFFER_SIZE - 1] == NulPad(Truncate(line, BUFFER_SIZE - 1), BUFFER_SIZE - 1)
    ensures CStr(buf) == Truncate(line, BUFFER_SIZE - 1)
  {
    var t := Truncate(line, BUFFER_SIZE - 1);
    assert buf == t + buf[|t|..];
    PrefixBeforeConcat(t, buf[|t|..], IsNul);
  }

  /** The loop that moves the pointer past the spaces after the header
      name; it stops at the terminator at the latest. */
  method SkipSpacesFrom(content: array<char>, from: nat) returns (start: nat)
    requires IsCString(content) && from < content.Length
    ensures from <= start < content.Length
    ensures content[start..content.Length - 1] == SkipSpaces(content[from..content.Length - 1])
  {
    ghost var text := content[..content.Length - 1];
    start := from;
    while content[start] == ' '
      invariant from <= start < content.Length
      invariant forall k :: from <= k < start ==> text[k] == ' '
      decreases content.Length - start
    {
      start := start + 1;
    }
    PrefixBeforeUnique(text[from..], NotSpace, text[from..start]);
  }

  /** strpbrk for CR or LF from `start`, and the NUL written over the one
      found: afterwards the string at `start` ends where the line does. */
  method CutAtLineBreak(content: array<char>, start: nat)
    requires IsCString(content) && start < content.Length
    modifies content
    ensures content[content.Length - 1] == NUL
    ensures CStr(content[start..]) == PrefixBefore(old(content[start..content.Length - 1]), IsLineBreak)
    ensures forall k :: 0 <= k < content.Length
              && k != start + |PrefixBefore(old(content[start..content.Length - 1]), IsLineBreak)|
              ==> content[k] == old(content[k])
  {
    var line := PrefixBefore(content[start..content.Length - 1], IsLineBreak);
    if start + |line| < content.Length - 1 {
      content[start + |line|] := NUL;
    }
    assert content[start..] == line + content[start + |line|..];
    PrefixBeforeConcat(line, content[start + |line|..], IsNul);
  }
}
