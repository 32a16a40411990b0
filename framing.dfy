/**
 * Wire-level pieces shared by the chat server and the chat client of lab5:
 * the C-string view of a byte buffer, newline framing, the `author\ndata\n`
 * batch format the server broadcasts and the client parses back into pairs,
 * and the scripted socket outcomes that stand in for send() and recv().
 */
module Framing {

  datatype Option<T> = None | Some(value: T)

  /** A chat message: author name and body, both as C strings. */
  datatype Message = Message(author: string, data: string)

  /** The events a chat endpoint asks its caller to wait for (CHAT_EVENT_INPUT / CHAT_EVENT_OUTPUT bits). */
  datatype Events = Events(input: bool, output: bool)

  /** Error codes of the chat API; chat.h, which gives them numbers, is not part of this model. */
  datatype ChatError = NotStarted | AlreadyStarted | PortBusy | NoAddr | Sys

  /** A chat API return value: a non-negative count or one of the error codes. */
  datatype ChatResult = Ok(n: int) | Err(code: ChatError)

  /**
   * What one send() call reports. `Accepted(n)` means the socket took
   * min(n, requested) bytes, so `Accepted(0)` is a send that returns 0;
   * `WouldBlock` is rc < 0 with errno EAGAIN/EWOULDBLOCK; `Failed` is rc < 0
   * with any other errno.
   */
  datatype SendResult = Accepted(n: nat) | WouldBlock | Failed

  /** Attempt `j` of a send script; a script that has run out blocks. */
  function Attempt(script: seq<SendResult>, j: nat): (r: SendResult)
    ensures j >= |script| ==> r == WouldBlock
  {
    if j < |script| then script[j] else WouldBlock
  }

  /** The return code send() gives for `r` when `requested` bytes were offered. */
  function SendRc(r: SendResult, requested: nat): (rc: int)
    ensures rc < 0 <==> !r.Accepted?
    ensures rc >= 0 ==> rc <= requested && (rc == 0 <==> r.n == 0 || requested == 0)
  {
    match r
    case Accepted(n) => if n < requested then n else requested
    case _ => -1
  }

  /**
   * A timeout of `t` seconds in whole milliseconds, as the C conversion of
   * `t * 1000` to int gives it (truncation, which is the floor for t >= 0).
   */
  function Millis(t: real): (ms: int)
    requires t >= 0.0
    ensures ms >= 0 && ms as real <= t * 1000.0 < ms as real + 1.0
  {
    (t * 1000.0).Floor
  }

  /**
   * The guard and clamp at the head of both update functions: None
   * (NOT_STARTED) while there is no socket, otherwise the wait in whole
   * milliseconds, with a negative timeout raised to 0.
   */
  function WaitMillis(socket: int, timeout: real): (r: Option<int>)
    ensures r.None? <==> socket == -1
    ensures r.Some? && timeout <= 0.0 ==> r.value == 0
    ensures r.Some? && timeout >= 0.0 ==> r.value as real <= timeout * 1000.0 < r.value as real + 1.0
  {
    if socket == -1 then None else if timeout < 0.0 then Some(Millis(0.0)) else Some(Millis(timeout))
  }

  /**
   * The bytes a do-while recv() loop collects from `chunks`, one chunk per
   * call, stopping at the first call that returns no bytes (end of stream,
   * error or would-block) or after `limit` calls. A script that has run out
   * reads as would-block.
   */
  function Drain(chunks: seq<seq<char>>, limit: nat): seq<char>
  {
    if limit == 0 || chunks == [] || chunks[0] == [] then [] else chunks[0] + Drain(chunks[1..], limit - 1)
  }

  /** A do-while recv() loop of at most `limit` calls: the bytes it collects. */
  method Receive(chunks: seq<seq<char>>, limit: nat) returns (buf: seq<char>)
    ensures buf == Drain(chunks, limit)
  {
    buf := [];
    var j := 0;
    while j < limit && j < |chunks| && chunks[j] != []
      invariant 0 <= j <= |chunks| && j <= limit
      invariant buf + Drain(chunks[j..], limit - j) == Drain(chunks, limit)
    {
      DrainStep(chunks, limit, j);
      buf := buf + chunks[j];
      j := j + 1;
    }
    DrainStop(chunks, limit, j);
  }

  /** One more call of the recv() loop collects chunk `j`. */
  lemma {:induction false} DrainStep(chunks: seq<seq<char>>, limit: nat, j: nat)
    requires j < limit && j < |chunks| && chunks[j] != []
    ensures Drain(chunks[j..], limit - j) == chunks[j] + Drain(chunks[j + 1..], limit - j - 1)
  {
    assert chunks[j..][1..] == chunks[j + 1..];
  }

  /** The recv() loop collects nothing more once it stops. */
  lemma {:induction false} DrainStop(chunks: seq<seq<char>>, limit: nat, j: nat)
    requires j <= |chunks| && j <= limit
    requires !(j < limit && j < |chunks| && chunks[j] != [])
    ensures Drain(chunks[j..], limit - j) == []
  {
  }

  /** The C-string view of a buffer: its bytes up to the first NUL. */
  function CStr(s: string): (r: string)
    ensures |r| <= |s| && r == s[..|r|]
    ensures '\0' !in r
    ensures |r| < |s| ==> s[|r|] == '\0'
    ensures '\0' !in s ==> r == s
  {
    if s == [] || s[0] == '\0' then [] else [s[0]] + CStr(s[1..])
  }

  /** The C-string view of text without newlines has neither newlines nor NULs. */
  lemma {:induction false} CStrPlain(s: string)
    requires '\n' !in s
    ensures '\n' !in CStr(s) && '\0' !in CStr(s)
  {
    var r := CStr(s);
    forall i | 0 <= i < |r|
      ensures r[i] != '\n'
    {
      assert r[i] == s[i];
    }
  }

  /** Index of the first newline in `s`, or -1. */
  function NewlineAt(s: string): (k: int)
    ensures -1 <= k < |s|
    ensures k >= 0 ==> s[k] == '\n' && '\n' !in s[..k]
    ensures k < 0 ==> '\n' !in s
  {
    if s == [] then -1
    else if s[0] == '\n' then 0
    else
      var k := NewlineAt(s[1..]);
      if k < 0 then -1
      else
        assert s[..k + 1] == [s[0]] + s[1..][..k];
        k + 1
  }

  /** A newline with none before it is the first one. */
  lemma {:induction false} NewlineAtIs(s: string, k: int)
    requires 0 <= k < |s| && s[k] == '\n' && '\n' !in s[..k]
    ensures NewlineAt(s) == k
  {
    var j := NewlineAt(s);
    assert s[k] in s;
    forall i | 0 <= i < k
      ensures s[i] != '\n'
    {
      assert s[..k][i] == s[i];
    }
    forall i | 0 <= i < j
      ensures s[i] != '\n'
    {
      assert s[..j][i] == s[i];
    }
  }

  /**
   * The lines a left-to-right scan of `s` still has to emit when it is at
   * index `i` and the current line began at `start`: each newline closes
   * the line before it, the newline itself dropped.
   */
  function LinesFrom(s: string, start: nat, i: nat): seq<string>
    requires start <= i <= |s|
    decreases |s| - i
  {
    if i == |s| then []
    else if s[i] == '\n' then [s[start..i]] + LinesFrom(s, i + 1, i + 1)
    else LinesFrom(s, start, i + 1)
  }

  /** A scan that meets a newline emits the line before it and starts the next line after it. */
  lemma {:induction false} LinesEmit(s: string, start: nat, i: nat, done: seq<string>)
    requires start <= i < |s| && s[i] == '\n'
    ensures done + LinesFrom(s, start, i) == (done + [s[start..i]]) + LinesFrom(s, i + 1, i + 1)
  {
  }

  /** A scan passes over a byte that is not a newline without emitting anything. */
  lemma {:induction false} LinesPass(s: string, start: nat, i: nat)
    requires start <= i < |s| && s[i] != '\n' && '\n' !in s[start..i]
    ensures '\n' !in s[start..i + 1]
    ensures LinesFrom(s, start, i) == LinesFrom(s, start, i + 1)
  {
    assert s[start..i + 1] == s[start..i] + [s[i]];
  }

  /** Where the unfinished last line of that scan begins. */
  function FragmentFrom(s: string, start: nat, i: nat): (f: nat)
    requires start <= i <= |s|
    ensures start <= f <= |s|
    decreases |s| - i
  {
    if i == |s| then start
    else if s[i] == '\n' then FragmentFrom(s, i + 1, i + 1)
    else FragmentFrom(s, start, i + 1)
  }

  /** The complete lines of `s`, without their newlines, in order. */
  function Lines(s: string): seq<string>
  {
    LinesFrom(s, 0, 0)
  }

  /** What follows the last newline of `s`: an unfinished line. */
  function Fragment(s: string): string
  {
    s[FragmentFrom(s, 0, 0)..]
  }

  /** Lines written back out, each followed by a newline. */
  function JoinLines(ls: seq<string>): string
  {
    if ls == [] then [] else ls[0] + "\n" + JoinLines(ls[1..])
  }

  predicate NoNewlines(ls: seq<string>)
  {
    forall i :: 0 <= i < |ls| ==> '\n' !in ls[i]
  }

  /** One step of LinesJoinFrom: a newline at `i` closes the line that began at `start`. */
  lemma {:induction false} JoinNewline(s: string, start: nat, i: nat, rest: seq<string>, f: string)
    requires start <= i < |s| && s[i] == '\n'
    requires JoinLines(rest) + f == s[i + 1..]
    ensures JoinLines([s[start..i]] + rest) + f == s[start..]
  {
    var line := s[start..i];
    assert ([line] + rest)[1..] == rest;
    assert JoinLines([line] + rest) == line + "\n" + JoinLines(rest);
    assert s[start..] == line + "\n" + s[i + 1..];
  }

  lemma {:induction false} LinesJoinFrom(s: string, start: nat, i: nat)
    requires start <= i <= |s|
    ensures JoinLines(LinesFrom(s, start, i)) + s[FragmentFrom(s, start, i)..] == s[start..]
    decreases |s| - i
  {
    if i == |s| {
    } else if s[i] == '\n' {
      LinesJoinFrom(s, i + 1, i + 1);
      JoinNewline(s, start, i, LinesFrom(s, i + 1, i + 1), s[FragmentFrom(s, i + 1, i + 1)..]);
    } else {
      LinesJoinFrom(s, start, i + 1);
      assert LinesFrom(s, start, i) == LinesFrom(s, start, i + 1);
      assert FragmentFrom(s, start, i) == FragmentFrom(s, start, i + 1);
    }
  }

  lemma {:induction false} LinesCleanFrom(s: string, start: nat, i: nat)
    requires start <= i <= |s| && '\n' !in s[start..i]
    ensures NoNewlines(LinesFrom(s, start, i)) && '\n' !in s[FragmentFrom(s, start, i)..]
    decreases |s| - i
  {
    if i == |s| {
    } else if s[i] == '\n' {
      LinesCleanFrom(s, i + 1, i + 1);
      var ls := LinesFrom(s, start, i);
      forall k | 0 <= k < |ls|
        ensures '\n' !in ls[k]
      {
        if k > 0 {
          assert ls[k] == LinesFrom(s, i + 1, i + 1)[k - 1];
        }
      }
    } else {
      assert s[start..i + 1] == s[start..i] + [s[i]];
      LinesCleanFrom(s, start, i + 1);
    }
  }

  /**
   * Splitting loses nothing: the lines and the fragment spell the buffer,
   * and none of them holds a newline.
   */
  lemma {:induction false} LinesJoin(s: string)
    ensures JoinLines(Lines(s)) + Fragment(s) == s
    ensures NoNewlines(Lines(s)) && '\n' !in Fragment(s)
  {
    LinesJoinFrom(s, 0, 0);
    LinesCleanFrom(s, 0, 0);
  }

  /** A scan passes over bytes that are not newlines without emitting anything. */
  lemma {:induction false} LinesSkip(s: string, start: nat, i: nat, j: nat)
    requires start <= i <= j <= |s| && '\n' !in s[i..j]
    ensures LinesFrom(s, start, i) == LinesFrom(s, start, j)
    ensures FragmentFrom(s, start, i) == FragmentFrom(s, start, j)
    decreases j - i
  {
    if i < j {
      assert s[i] == s[i..j][0];
      assert s[i + 1..j] == s[i..j][1..];
      LinesSkip(s, start, i + 1, j);
    }
  }

  lemma {:induction false} LinesOfJoinAt(s: string, p: nat, ls: seq<string>, f: string)
    requires NoNewlines(ls) && '\n' !in f
    requires p <= |s| && s[p..] == JoinLines(ls) + f
    ensures LinesFrom(s, p, p) == ls
    ensures FragmentFrom(s, p, p) == |s| - |f|
    decreases ls
  {
    if ls == [] {
      assert s[p..] == f;
      LinesSkip(s, p, p, |s|);
    } else {
      var q := p + |ls[0]|;
      assert s[p..] == ls[0] + "\n" + (JoinLines(ls[1..]) + f);
      assert s[p..q] == ls[0] && s[q] == '\n';
      assert s[q + 1..] == JoinLines(ls[1..]) + f;
      LinesSkip(s, p, p, q);
      LinesOfJoinAt(s, q + 1, ls[1..], f);
      assert ls == [ls[0]] + ls[1..];
    }
  }

  /** Joining newline-free lines and splitting again gives the same lines and fragment. */
  lemma {:induction false} LinesOfJoin(ls: seq<string>, f: string)
    requires NoNewlines(ls) && '\n' !in f
    ensures Lines(JoinLines(ls) + f) == ls
    ensures Fragment(JoinLines(ls) + f) == f
  {
    var s := JoinLines(ls) + f;
    assert s[0..] == s;
    LinesOfJoinAt(s, 0, ls, f);
  }

  /** A message whose fields survive the wire format unchanged. */
  predicate Clean(m: Message)
  {
    '\n' !in m.author && '\0' !in m.author && '\n' !in m.data && '\0' !in m.data
  }

  /**
   * The batch the server broadcasts: for each message its author and its
   * body, each followed by a newline. The server's messages are C strings
   * (no NUL inside), so their lengths are what strlen reports.
   */
  function Encode(ms: seq<Message>): string
  {
    if ms == [] then [] else Head(ms[0]) + Encode(ms[1..])
  }

  /** One encoded message: its author line, then its body line. */
  function Head(m: Message): string
  {
    m.author + "\n" + m.data + "\n"
  }

  /** Where the parts of an encoded message sit inside it. */
  lemma {:induction false} HeadParts(m: Message)
    ensures var h := Head(m); var a := |m.author|; var b := a + 1 + |m.data|;
      |h| == b + 1 && h[..a] == m.author && h[a] == '\n' && h[a + 1..b] == m.data && h[b] == '\n'
  {
    var x, y := m.author, m.data;
    var xn := x + "\n";
    var xny := xn + y;
    assert Head(m) == xny + "\n";
    assert |xn| == |x| + 1 && |xny| == |xn| + |y|;
    assert xny[..|x|] == x;
    assert xny[|x| + 1..|xny|] == y;
  }

  lemma {:induction false} EncodeAppend(a: seq<Message>, b: seq<Message>)
    ensures Encode(a + b) == Encode(a) + Encode(b)
  {
    if a == [] {
      assert a + b == b;
    } else {
      assert (a + b)[1..] == a[1..] + b;
      EncodeAppend(a[1..], b);
    }
  }

  /** Encoding one more message appends its author line and its body line. */
  lemma {:induction false} EncodeSnoc(ms: seq<Message>, m: Message)
    ensures Encode(ms + [m]) == Encode(ms) + Head(m)
  {
    EncodeAppend(ms, [m]);
    assert Encode([m]) == Head(m) + Encode([]);
  }

  /**
   * The (author, body) messages a left-to-right scan of `s` still has to
   * emit when it is at index `i`, the pending pair began at `start`, and
   * either an author line is awaited (`first`) or the author line ended at
   * `author`. Every two complete lines form one message; a body line closes
   * the pair and the next line is an author again.
   */
  function PairsFrom(s: string, start: nat, author: nat, first: bool, i: nat): seq<Message>
    requires start <= i <= |s| && (!first ==> start <= author < i)
    decreases |s| - i
  {
    if i == |s| then []
    else if s[i] != '\n' then PairsFrom(s, start, author, first, i + 1)
    else if first then PairsFrom(s, start, i, false, i + 1)
    else [Message(CStr(s[start..author]), CStr(s[author + 1..i]))] + PairsFrom(s, i + 1, i + 1, true, i + 1)
  }

  /** Where the bytes that do not yet form a complete pair begin. */
  function KeptFrom(s: string, start: nat, author: nat, first: bool, i: nat): (k: nat)
    requires start <= i <= |s| && (!first ==> start <= author < i)
    ensures start <= k <= |s|
    decreases |s| - i
  {
    if i == |s| then start
    else if s[i] != '\n' then KeptFrom(s, start, author, first, i + 1)
    else if first then KeptFrom(s, start, i, false, i + 1)
    else KeptFrom(s, i + 1, i + 1, true, i + 1)
  }

  /** The messages the client reads from a buffer. */
  function Pairs(s: string): seq<Message>
  {
    PairsFrom(s, 0, 0, true, 0)
  }

  /** Where the bytes the client keeps for its next read begin. */
  function Kept(s: string): (k: nat)
    ensures k <= |s|
  {
    KeptFrom(s, 0, 0, true, 0)
  }

  /** One step of the pair scan at index `i`, as the client's loop takes it. */
  lemma {:induction false} PairsStep(s: string, start: nat, author: nat, first: bool, i: nat, done: seq<Message>)
    requires start <= i < |s| && (!first ==> start <= author < i)
    ensures s[i] != '\n' ==>
      done + PairsFrom(s, start, author, first, i) == done + PairsFrom(s, start, author, first, i + 1) &&
      KeptFrom(s, start, author, first, i) == KeptFrom(s, start, author, first, i + 1)
    ensures s[i] == '\n' && first ==>
      done + PairsFrom(s, start, author, first, i) == done + PairsFrom(s, start, i, false, i + 1) &&
      KeptFrom(s, start, author, first, i) == KeptFrom(s, start, i, false, i + 1)
    ensures s[i] == '\n' && !first ==>
      done + PairsFrom(s, start, author, first, i) ==
        (done + [Message(CStr(s[start..author]), CStr(s[author + 1..i]))]) + PairsFrom(s, i + 1, i + 1, true, i + 1) &&
      KeptFrom(s, start, author, first, i) == KeptFrom(s, i + 1, i + 1, true, i + 1)
  {
  }

  /** While an author line is awaited, where the last author line ended does not matter. */
  lemma {:induction false} PairsAnyAuthor(s: string, start: nat, author: nat, i: nat)
    requires start <= i <= |s|
    ensures PairsFrom(s, start, author, true, i) == PairsFrom(s, start, start, true, i)
    ensures KeptFrom(s, start, author, true, i) == KeptFrom(s, start, start, true, i)
    decreases |s| - i
  {
    if i < |s| && s[i] != '\n' {
      PairsAnyAuthor(s, start, author, i + 1);
    }
  }

  /** A pair scan passes over bytes that are not newlines without changing its state. */
  lemma {:induction false} PairsSkip(s: string, start: nat, author: nat, first: bool, i: nat, j: nat)
    requires start <= i <= j <= |s| && (!first ==> start <= author < i) && '\n' !in s[i..j]
    ensures PairsFrom(s, start, author, first, i) == PairsFrom(s, start, author, first, j)
    ensures KeptFrom(s, start, author, first, i) == KeptFrom(s, start, author, first, j)
    decreases j - i
  {
    if i < j {
      assert s[i] == s[i..j][0];
      assert s[i + 1..j] == s[i..j][1..];
      PairsSkip(s, start, author, first, i + 1, j);
    }
  }

  /** A slice that spells `u + v` splits into a slice spelling `u` and one spelling `v`. */
  lemma {:induction false} SliceSplit(s: string, p: nat, u: string, v: string)
    requires p + |u| + |v| <= |s| && s[p..p + |u| + |v|] == u + v
    ensures s[p..p + |u|] == u && s[p + |u|..p + |u| + |v|] == v
  {
    var w := s[p..p + |u| + |v|];
    assert s[p..p + |u|] == w[..|u|];
    assert s[p + |u|..p + |u| + |v|] == w[|u|..];
  }

  /** The author line and the body line of a clean message at position `p` read back as that message. */
  lemma {:induction false} PairsOfOne(s: string, p: nat, m: Message, q: nat)
    requires Clean(m) && q == p + |m.author| + |m.data| + 2
    requires var a := p + |m.author|; var b := a + 1 + |m.data|;
      b < |s| && s[p..a] == m.author && s[a] == '\n' && s[a + 1..b] == m.data && s[b] == '\n'
    ensures PairsFrom(s, p, p, true, p) == [m] + PairsFrom(s, q, q, true, q)
  {
    assert CStr(m.author) == m.author && CStr(m.data) == m.data;
    var a := p + |m.author|;
    var b := a + 1 + |m.data|;
    PairsSkip(s, p, p, true, p, a);
    PairsSkip(s, p, a, false, a + 1, b);
  }

  /** An encoded message at position `p` of a buffer: its parts by position. */
  lemma {:induction false} HeadAt(s: string, p: nat, m: Message)
    requires p + |Head(m)| <= |s| && s[p..p + |Head(m)|] == Head(m)
    ensures var a := p + |m.author|; var b := a + 1 + |m.data|;
      b < |s| && s[p..a] == m.author && s[a] == '\n' && s[a + 1..b] == m.data && s[b] == '\n'
  {
    HeadParts(m);
    var h := Head(m);
    var w := s[p..p + |h|];
    var a := |m.author|;
    var b := a + 1 + |m.data|;
    SliceOfSlice(s, p, |h|, 0, a, p, p + a);
    SliceOfSlice(s, p, |h|, a + 1, b, p + a + 1, p + b);
    assert w[..a] == w[0..a];
    assert s[p + a] == w[a] && s[p + b] == w[b];
  }

  /** A slice of the window s[p..p + n] is the slice of `s` at the same positions shifted by `p`. */
  lemma {:induction false} SliceOfSlice(s: string, p: nat, n: nat, x: nat, y: nat, x': nat, y': nat)
    requires p + n <= |s| && x <= y <= n && x' == p + x && y' == p + y
    ensures s[p..p + n][x..y] == s[x'..y']
  {
  }

  /** Where the first encoded message of a batch sits inside a buffer. */
  lemma {:induction false} EncodeAt(s: string, p: nat, ms: seq<Message>)
    requires ms != [] && p + |Encode(ms)| <= |s| && s[p..p + |Encode(ms)|] == Encode(ms)
    ensures var a := p + |ms[0].author|; var b := a + 1 + |ms[0].data|;
      b < |s| && s[p..a] == ms[0].author && s[a] == '\n' &&
      s[a + 1..b] == ms[0].data && s[b] == '\n' &&
      s[b + 1..p + |Encode(ms)|] == Encode(ms[1..])
  {
    var h := Head(ms[0]);
    HeadParts(ms[0]);
    SliceSplit(s, p, h, Encode(ms[1..]));
    HeadAt(s, p, ms[0]);
  }

  /** The first message of a batch encoded at position `p` is read back first; the rest follows it. */
  lemma {:induction false} PairsOfFirst(s: string, p: nat, ms: seq<Message>) returns (c: nat)
    requires ms != [] && Clean(ms[0])
    requires p + |Encode(ms)| <= |s| && s[p..p + |Encode(ms)|] == Encode(ms)
    ensures c + |Encode(ms[1..])| == p + |Encode(ms)| && s[c..c + |Encode(ms[1..])|] == Encode(ms[1..])
    ensures PairsFrom(s, p, p, true, p) == [ms[0]] + PairsFrom(s, c, c, true, c)
  {
    var m := ms[0];
    EncodeAt(s, p, ms);
    c := p + |m.author| + 1 + |m.data| + 1;
    PairsOfOne(s, p, m, c);
  }

  /** Clean messages encoded at position `p` are read back one pair at a time. */
  lemma {:induction false} PairsOfEncodeAt(s: string, p: nat, ms: seq<Message>)
    requires forall k :: 0 <= k < |ms| ==> Clean(ms[k])
    requires p + |Encode(ms)| <= |s| && s[p..p + |Encode(ms)|] == Encode(ms)
    ensures var q := p + |Encode(ms)|;
      PairsFrom(s, p, p, true, p) == ms + PairsFrom(s, q, q, true, q)
    decreases ms
  {
    if ms != [] {
      var c := PairsOfFirst(s, p, ms);
      PairsOfEncodeAt(s, c, ms[1..]);
      var q := p + |Encode(ms)|;
      var r := PairsFrom(s, q, q, true, q);
      assert ms == [ms[0]] + ms[1..];
      calc {
        PairsFrom(s, p, p, true, p);
        [ms[0]] + PairsFrom(s, c, c, true, c);
        [ms[0]] + (ms[1..] + r);
        ([ms[0]] + ms[1..]) + r;
      }
    }
  }

  /** The batch format is decodable: encoding clean messages and parsing them back is the identity. */
  lemma {:induction false} RoundTrip(ms: seq<Message>)
    requires forall k :: 0 <= k < |ms| ==> Clean(ms[k])
    ensures Pairs(Encode(ms)) == ms
  {
    var s := Encode(ms);
    var n := |s|;
    assert s[0..n] == s;
    PairsOfEncodeAt(s, 0, ms);
    assert PairsFrom(s, n, n, true, n) == [];
    assert ms + [] == ms;
  }

  // ---------------------------------------------------------------------------
  // Reads split anywhere: the bytes kept carry an unfinished pair over
  // ---------------------------------------------------------------------------

  /**
   * The scan state at `i` is one that a scan started fresh at `start` also
   * reaches: no newline yet while an author line is awaited, otherwise the
   * author line's newline at `author` and none after it.
   */
  predicate Fresh(s: string, start: nat, author: nat, first: bool, i: nat)
    requires start <= i <= |s| && (!first ==> start <= author < i)
  {
    if first then '\n' !in s[start..i]
    else s[author] == '\n' && '\n' !in s[start..author] && '\n' !in s[author + 1..i]
  }

  /** Rescanning from `start` with an author line awaited reaches a fresh state again. */
  lemma {:induction false} PairsReplay(s: string, start: nat, author: nat, first: bool, i: nat)
    requires start <= i <= |s| && (!first ==> start <= author < i)
    requires Fresh(s, start, author, first, i)
    ensures PairsFrom(s, start, start, true, start) == PairsFrom(s, start, author, first, i)
    ensures KeptFrom(s, start, start, true, start) == KeptFrom(s, start, author, first, i)
  {
    if first {
      PairsSkip(s, start, start, true, start, i);
      PairsAnyAuthor(s, start, author, i);
    } else {
      PairsSkip(s, start, start, true, start, author);
      PairsSkip(s, start, author, false, author + 1, i);
    }
  }

  /**
   * Scanning `a + b` from a fresh state inside `a` emits what scanning `a`
   * alone emits, then what a fresh scan from the bytes `a` keeps emits.
   */
  lemma {:induction false} PairsPrefix(a: string, b: string, start: nat, author: nat, first: bool, i: nat)
    requires start <= i <= |a| && (!first ==> start <= author < i)
    requires Fresh(a, start, author, first, i)
    ensures var s := a + b; var k := KeptFrom(a, start, author, first, i);
      PairsFrom(s, start, author, first, i) == PairsFrom(a, start, author, first, i) + PairsFrom(s, k, k, true, k) &&
      KeptFrom(s, start, author, first, i) == KeptFrom(s, k, k, true, k)
    decreases |a| - i
  {
    var s := a + b;
    if i == |a| {
      assert s[start..i] == a[start..i];
      if !first {
        assert s[start..author] == a[start..author] && s[author + 1..i] == a[author + 1..i];
      }
      PairsReplay(s, start, author, first, i);
    } else {
      assert s[i] == a[i];
      if a[i] != '\n' {
        assert a[start..i + 1] == a[start..i] + [a[i]];
        if !first {
          assert a[author + 1..i + 1] == a[author + 1..i] + [a[i]];
        }
        PairsPrefix(a, b, start, author, first, i + 1);
      } else if first {
        assert a[start..i] == a[start..i];
        assert a[i + 1..i + 1] == [];
        PairsPrefix(a, b, start, i, false, i + 1);
      } else {
        assert s[start..author] == a[start..author] && s[author + 1..i] == a[author + 1..i];
        assert a[i + 1..i + 1] == [];
        PairsPrefix(a, b, i + 1, i + 1, true, i + 1);
      }
    }
  }

  /** A slice of `s[d..]` is the slice of `s` moved down by `d`. */
  lemma {:induction false} SliceShift(s: string, d: nat, x: nat, y: nat, x': nat, y': nat)
    requires d <= x <= y <= |s| && x' == x - d && y' == y - d
    ensures s[d..][x'..y'] == s[x..y]
  {
  }

  /** The scan at a newline that closes a body line emits the pair it closes. */
  lemma {:induction false} EmitAt(s: string, start: nat, author: nat, i: nat, u: string, v: string)
    requires start <= author < i < |s| && s[i] == '\n'
    requires s[start..author] == u && s[author + 1..i] == v
    ensures PairsFrom(s, start, author, false, i) == [Message(CStr(u), CStr(v))] + PairsFrom(s, i + 1, i + 1, true, i + 1)
  {
  }

  /** A scan of `s` from position `d` on emits what the scan of `s[d..]` emits with every index moved down by `d`. */
  lemma {:induction false} PairsShift(s: string, d: nat, start: nat, author: nat, first: bool, i: nat)
    requires d <= start <= i <= |s| && d <= author && (!first ==> start <= author < i)
    ensures PairsFrom(s, start, author, first, i) == PairsFrom(s[d..], start - d, author - d, first, i - d)
    decreases |s| - i
  {
    if i < |s| {
      assert s[d..][i - d] == s[i];
      if s[i] != '\n' {
        PairsShift(s, d, start, author, first, i + 1);
      } else if first {
        PairsShift(s, d, start, i, false, i + 1);
      } else {
        PairsShift(s, d, i + 1, i + 1, true, i + 1);
        var t, j := s[d..], i - d;
        SliceShift(s, d, start, author, start - d, author - d);
        SliceShift(s, d, author + 1, i, author - d + 1, j);
        assert i + 1 - d == j + 1;
        ShiftEmit(s, t, start, author, i, start - d, author - d, j);
      }
    }
  }

  /** Two scans that agree after a newline closing the same pair agree before it. */
  lemma {:induction false} ShiftEmit(s: string, t: string, start: nat, author: nat, i: nat, sa: nat, au: nat, j: nat)
    requires start <= author < i < |s| && s[i] == '\n'
    requires sa <= au < j < |t| && t[j] == '\n'
    requires t[sa..au] == s[start..author] && t[au + 1..j] == s[author + 1..i]
    requires PairsFrom(s, i + 1, i + 1, true, i + 1) == PairsFrom(t, j + 1, j + 1, true, j + 1)
    ensures PairsFrom(s, start, author, false, i) == PairsFrom(t, sa, au, false, j)
  {
    var u, v := s[start..author], s[author + 1..i];
    EmitAt(s, start, author, i, u, v);
    EmitAt(t, sa, au, j, u, v);
  }

  /** A scan of `s` from position `d` on keeps what the scan of `s[d..]` keeps, moved up by `d`. */
  lemma {:induction false} KeptShift(s: string, d: nat, start: nat, author: nat, first: bool, i: nat)
    requires d <= start <= i <= |s| && d <= author && (!first ==> start <= author < i)
    ensures KeptFrom(s, start, author, first, i) == d + KeptFrom(s[d..], start - d, author - d, first, i - d)
    decreases |s| - i
  {
    var t := s[d..];
    if i < |s| {
      assert t[i - d] == s[i];
      if s[i] != '\n' {
        KeptShift(s, d, start, author, first, i + 1);
      } else if first {
        KeptShift(s, d, start, i, false, i + 1);
      } else {
        KeptShift(s, d, i + 1, i + 1, true, i + 1);
      }
    }
  }

  /**
   * The client may read the stream in any two pieces: the messages of `a + b`
   * are those of `a` followed by those of the bytes `a` keeps with `b` behind
   * them, and the bytes kept at the end agree too. So carrying the unfinished
   * pair over loses and repeats nothing.
   */
  lemma {:induction false} PairsSplit(a: string, b: string)
    ensures Pairs(a + b) == Pairs(a) + Pairs(a[Kept(a)..] + b)
    ensures Kept(a + b) == Kept(a) + Kept(a[Kept(a)..] + b)
  {
    var s := a + b;
    var k := Kept(a);
    assert a[0..0] == [];
    PairsPrefix(a, b, 0, 0, true, 0);
    PairsShift(s, k, k, k, true, k);
    KeptShift(s, k, k, k, true, k);
    assert s[k..] == a[k..] + b;
  }
}
