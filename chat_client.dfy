/**
 * The chat client of lab5: an output buffer whose complete-line prefix is
 * sent to the server, the client's name sent ahead of everything else, and
 * an input buffer re-framed into (author, body) pairs. Sockets are inputs:
 * a send is a script of send() outcomes and a read a sequence of received
 * chunks.
 */
module ChatClient {
  import opened Framing

  /** The most bytes one send() is offered (BUF_LIMIT). */
  const BufLimit: nat := 10240

  /** The send and receive loops give up after this many calls. */
  const Attempts: nat := 10

  function Min(a: nat, b: nat): nat
  {
    if a < b then a else b
  }

  /** A C `uint32_t` conversion of an int. */
  function Wrap32(x: int): (r: int)
    ensures 0 <= r < 0x1_0000_0000
    ensures (x - r) % 0x1_0000_0000 == 0
  {
    x % 0x1_0000_0000
  }

  /**
   * The complete-line prefix after scanning `s` from `i` with prefix length
   * `full` so far: one past the last newline scanned, or `full` if none.
   */
  function FullAfter(s: string, i: nat, full: nat): (r: nat)
    requires full <= i <= |s|
    ensures full <= r <= |s|
    ensures (r == full && '\n' !in s[i..]) || (i < r && s[r - 1] == '\n' && '\n' !in s[r..])
    decreases |s| - i
  {
    if i == |s| then full
    else
      var r := FullAfter(s, i + 1, if s[i] == '\n' then i + 1 else full);
      assert s[i..] == [s[i]] + s[i + 1..];
      r
  }

  /** The scan of chat_client_feed over the appended bytes buf[start..] for the last newline. */
  method ScanFull(buf: string, start: nat, full: nat) returns (f: nat)
    requires full <= start <= |buf|
    ensures f == FullAfter(buf, start, full)
  {
    f := full;
    var i: nat := start;
    while i < |buf|
      invariant start <= i <= |buf| && f <= i
      invariant FullAfter(buf, i, f) == FullAfter(buf, start, full)
    {
      if buf[i] == '\n' {
        f := i + 1;
      }
      i := i + 1;
    }
  }

  /** Appending bytes and scanning them keeps the mark at the end of the last newline. */
  lemma {:induction false} FeedKeepsMark(o: string, msg: string, f: nat)
    requires f <= |o| && '\n' !in o[f..] && (f > 0 ==> o[f - 1] == '\n')
    ensures var s := o + msg; var r := FullAfter(s, |o|, f);
      '\n' !in s[r..] && (r > 0 ==> s[r - 1] == '\n')
  {
    var s := o + msg;
    if FullAfter(s, |o|, f) == f {
      assert s[f..] == o[f..] + s[|o|..];
      assert f > 0 ==> s[f - 1] == o[f - 1];
    }
  }

  /** How the send loop of chat_client_send_buf ends, with the bytes sent by then. */
  datatype SendOutcome = Done(total: nat) | Blocked(total: nat) | Broken(total: nat)

  /**
   * The send loop of chat_client_send_buf from call `j`, `total` bytes sent
   * and `sz` of the complete-line prefix left: each call is offered at most
   * BufLimit bytes; the call after the tenth counts as would-block; a send
   * that fails or returns 0 ends the loop.
   */
  function SendLoop(script: seq<SendResult>, j: nat, total: nat, sz: nat): (o: SendOutcome)
    requires j <= Attempts
    ensures total <= o.total <= total + sz
    ensures o.Done? <==> o.total == total + sz
    ensures o.total - total <= (Attempts - j) * BufLimit
    decreases Attempts - j
  {
    if sz == 0 then Done(total)
    else if j == Attempts then Blocked(total)
    else match Attempt(script, j)
      case WouldBlock => Blocked(total)
      case Failed => Broken(total)
      case Accepted(n) =>
        var rc := SendRc(Accepted(n), Min(sz, BufLimit));
        if rc == 0 then Broken(total) else SendLoop(script, j + 1, total + rc, sz - rc)
  }

  /** A socket that never blocks and takes whole chunks empties a prefix of at most ten chunks. */
  lemma {:induction false} SendLoopDrains(script: seq<SendResult>, j: nat, total: nat, sz: nat)
    requires j <= Attempts && sz <= (Attempts - j) * BufLimit && |script| >= Attempts
    requires forall t :: j <= t < |script| ==> script[t].Accepted? && script[t].n >= BufLimit
    ensures SendLoop(script, j, total, sz) == Done(total + sz)
    decreases Attempts - j
  {
    if sz > 0 && j < Attempts {
      SendLoopDrains(script, j + 1, total + Min(sz, BufLimit), sz - Min(sz, BufLimit));
    }
  }

  /**
   * The queue the would-block branch of chat_client_send_buf leaves after
   * `total` bytes of a complete-line prefix of `full` went out, as written:
   * the rest moves to the front and a NUL is stored at index `full - total`,
   * the end of the remaining complete lines, over the first byte of any
   * unfinished line behind them.
   */
  function CompactAsWritten(out: string, full: nat, total: nat): (r: string)
    requires total <= full <= |out|
    ensures |r| == |out| - total
  {
    var moved := out[total..];
    var sz := full - total;
    if sz < |moved| then moved[sz := '\0'] else moved
  }

  /** As written, one byte sent of "ab\ncd" before a would-block loses the 'c' of the unfinished line. */
  lemma {:induction false} CompactAsWrittenClobbers()
    ensures CompactAsWritten("ab\ncd", 3, 1) == "b\n\0d"
    ensures CompactAsWritten("ab\ncd", 3, 1) != "ab\ncd"[1..]
  {
  }

  /**
   * The send loop of send_client_name from call `j` with `sent` of the `sz`
   * bytes of the name line out: (bytes sent, whether it stopped on
   * would-block). A send that returns 0 is tried again; any other error
   * stops the loop.
   */
  function NameLoop(script: seq<SendResult>, j: nat, sent: nat, sz: nat): (o: (nat, bool))
    requires j <= Attempts && sent < sz
    ensures sent <= o.0 <= sz
    ensures o.0 == sz ==> !o.1
    decreases Attempts - j
  {
    if j == Attempts then (sent, true)
    else match Attempt(script, j)
      case WouldBlock => (sent, true)
      case Failed => (sent, false)
      case Accepted(n) =>
        var rc := SendRc(Accepted(n), Min(sz - sent, BufLimit));
        if sent + rc == sz then (sz, false) else NameLoop(script, j + 1, sent + rc, sz)
  }

  /** One accepted send of the name loop. */
  lemma {:induction false} NameLoopStep(script: seq<SendResult>, j: nat, sent: nat, sz: nat, rc: int)
    requires j < Attempts && sent < sz && Attempt(script, j).Accepted?
    requires rc == SendRc(Attempt(script, j), Min(sz - sent, BufLimit))
    ensures sent + rc <= sz
    ensures NameLoop(script, j, sent, sz) == if sent + rc == sz then (sz, false) else NameLoop(script, j + 1, sent + rc, sz)
  {
  }

  /** What chat_client_receive_buf stores for one pair as written: author and body may be missing (NULL). */
  datatype RawMessage = RawMessage(author: Option<string>, data: Option<string>)

  /**
   * The pair scan of chat_client_receive_buf as written: the author is taken
   * only when its line ended at a non-zero index, and the body only when the
   * pair does not start at index 0, so a batch whose first author line is
   * empty yields a message with neither.
   */
  function RawFrom(s: string, start: nat, authorEnd: nat, first: bool, i: nat): seq<RawMessage>
    requires start <= i <= |s| && authorEnd <= i
    requires !first && authorEnd != 0 ==> start <= authorEnd < i
    decreases |s| - i
  {
    if i == |s| then []
    else if s[i] != '\n' then RawFrom(s, start, authorEnd, first, i + 1)
    else if first then RawFrom(s, start, i, false, i + 1)
    else
      var author := if authorEnd != 0 then Some(CStr(s[start..authorEnd])) else None;
      var bodyStart := if authorEnd != 0 then authorEnd + 1 else start;
      var data := if bodyStart != 0 then Some(CStr(s[bodyStart..i])) else None;
      [RawMessage(author, data)] + RawFrom(s, i + 1, authorEnd, bodyStart != 0, i + 1)
  }

  /**
   * As written, the batch of one message from a peer with an empty name
   * reads back with no author and no body, where the format holds ("", "hi").
   */
  lemma {:induction false} RawEmptyAuthorAsWritten()
    ensures RawFrom("\nhi\n", 0, 0, true, 0) == [RawMessage(None, None)]
    ensures Pairs("\nhi\n") == [Message("", "hi")]
  {
    assert Encode([Message("", "hi")]) == "\nhi\n";
    RoundTrip([Message("", "hi")]);
  }

  /** How the address lookup and connect attempts of chat_client_connect turn out. */
  datatype ConnectOutcome = Unresolved | Refused | Connected(fd: nat)

  /** Number of spaces at the front of `s`. */
  function LeadingSpaces(s: string): (n: nat)
    ensures n <= |s|
    ensures forall k :: 0 <= k < n ==> s[k] == ' '
    ensures n < |s| ==> s[n] != ' '
  {
    if s == [] || s[0] != ' ' then 0 else 1 + LeadingSpaces(s[1..])
  }

  /** Number of consecutive spaces in `s` ending at index `i` and running down. */
  function SpacesBefore(s: string, i: int): (n: nat)
    requires i < |s|
    ensures i < 0 ==> n == 0
    ensures i >= 0 ==> n <= i + 1 && (forall k :: i - n < k <= i ==> s[k] == ' ') && (n <= i ==> s[i - n] != ' ')
    decreases if i < 0 then 0 else i + 1
  {
    if i < 0 || s[i] != ' ' then 0 else 1 + SpacesBefore(s, i - 1)
  }

  /** The first |s| bytes after moving s[n..] to the front of the buffer that held s. */
  function ShiftLeft(s: string, n: nat): (r: string)
    requires n <= |s|
    ensures |r| == |s|
  {
    s[n..] + s[|s| - n..]
  }

  /**
   * trim_message as written, on its msg_size bytes `s`: the buffer after the
   * call and the count it returns before the conversion to uint32_t. The
   * back scan runs over the shifted buffer from index |s| - 2.
   */
  function TrimAsWritten(s: string): (r: (string, int))
    ensures |r.0| == |s|
  {
    var front := LeadingSpaces(s);
    var b := ShiftLeft(s, front);
    var back := SpacesBefore(b, |s| - 2);
    (if back > 0 then b[|s| - back - 1 := '\n'] else b, |s| - front - back)
  }

  /** Where the intended trim of a line with a non-space at `a` ends its text. */
  function TrimEnd(s: string, a: nat): (b: nat)
    requires 1 <= |s| && a <= |s| - 1
    ensures a <= b <= |s| - 1
    ensures a == LeadingSpaces(s) ==> forall k :: b <= k < |s| - 1 ==> s[k] == ' '
    ensures a == LeadingSpaces(s) && a < b ==> s[b - 1] != ' '
  {
    var b := |s| - 1 - SpacesBefore(s, |s| - 2);
    if b < a then a else b
  }

  /**
   * The trim evidently intended: leading spaces removed, and the spaces
   * just before the final character (the line's newline) removed.
   */
  function Trim(s: string): (r: string)
    ensures |r| <= |s|
    ensures r == [] <==> forall k :: 0 <= k < |s| ==> s[k] == ' '
    ensures r != [] ==> r[0] != ' ' && r[|r| - 1] == s[|s| - 1]
  {
    var a := LeadingSpaces(s);
    if a == |s| then [] else s[a..TrimEnd(s, a)] + [s[|s| - 1]]
  }

  /**
   * The intended trim is determined by its shape: a line whose last
   * character is not a space, split into leading spaces, a text that
   * neither starts nor ends with a space, and spaces before the last
   * character, trims to that text followed by the last character.
   */
  lemma {:induction false} TrimShape(s: string, a: nat, b: nat)
    requires a <= b < |s| && s[|s| - 1] != ' '
    requires forall k :: 0 <= k < a || b <= k < |s| - 1 ==> s[k] == ' '
    requires a < b ==> s[a] != ' ' && s[b - 1] != ' '
    ensures Trim(s) == s[a..b] + [s[|s| - 1]]
  {
    var a' := LeadingSpaces(s);
    if a < b {
      assert a' == a;
      assert SpacesBefore(s, |s| - 2) == |s| - 1 - b;
    } else {
      assert a' == |s| - 1 || a' == a;
      assert TrimEnd(s, a') == a';
    }
  }

  /** Trimming a line that ends in a non-space character twice changes nothing more. */
  lemma {:induction false} TrimIdempotent(s: string)
    requires s == [] || s[|s| - 1] != ' '
    ensures Trim(Trim(s)) == Trim(s)
  {
    var a := LeadingSpaces(s);
    if a < |s| {
      var b := TrimEnd(s, a);
      var t := Trim(s);
      assert t == s[a..b] + [s[|s| - 1]];
      assert |t| == b - a + 1;
      if a < b {
        assert t[0] == s[a];
        assert t[|t| - 2] == s[b - 1];
      }
      TrimShape(t, 0, |t| - 1);
      assert t[0..|t| - 1] + [t[|t| - 1]] == t;
    }
  }

  /**
   * On a line that has no leading spaces and ends in a newline, trim_message
   * as written does what was intended: the count it returns is the length of
   * the trimmed line, and the buffer starts with that line.
   */
  lemma {:induction false} TrimAsWrittenAgrees(s: string)
    requires |s| >= 1 && s[0] != ' ' && s[|s| - 1] == '\n'
    ensures var r := TrimAsWritten(s); r.1 == |Trim(s)| && r.0[..r.1] == Trim(s)
  {
    assert LeadingSpaces(s) == 0;
    assert ShiftLeft(s, 0) == s;
    var back := SpacesBefore(s, |s| - 2);
    var b := |s| - 1 - back;
    assert TrimEnd(s, 0) == b;
    var r := TrimAsWritten(s);
    assert r.1 == b + 1;
    if back > 0 {
      assert r.0 == s[b := '\n'];
      assert r.0[..b + 1] == s[..b] + ['\n'];
    } else {
      assert r.0[..b + 1] == s[0..b] + [s[|s| - 1]];
    }
  }

  /**
   * As written, leading spaces make the back scan read bytes the shift left
   * behind: "  hi  \n" keeps its trailing spaces and loses its newline from
   * the returned count.
   */
  lemma {:induction false} TrimAsWrittenKeepsSpaces()
    ensures TrimAsWritten("  hi  \n") == ("hi  \n\n\n", 4)
    ensures Trim("  hi  \n") == "hi\n"
  {
    var s := "  hi  \n";
    assert s[1..][1..] == "hi  \n";
    assert LeadingSpaces(s) == 2;
    var b := ShiftLeft(s, 2);
    assert b == "hi  \n \n";
    assert b[5] == ' ' && b[4] == '\n';
    assert SpacesBefore(b, 5) == 1;
    assert b[5 := '\n'] == "hi  \n\n\n";
    assert s[5] == ' ' && s[4] == ' ' && s[3] == 'i';
    assert SpacesBefore(s, 5) == 2;
    assert TrimEnd(s, 2) == 4;
    assert s[2..4] == "hi";
  }

  /** As written, a line of three spaces returns a count that wraps around to 2^32 - 2. */
  lemma {:induction false} TrimAsWrittenWraps()
    ensures TrimAsWritten("   ").1 == -2 && Wrap32(-2) == 0xFFFF_FFFE
    ensures Trim("   ") == []
  {
    var s := "   ";
    assert s[1..][1..][1..] == [];
    assert LeadingSpaces(s) == 3;
    var b := ShiftLeft(s, 3);
    assert b == "   ";
    assert SpacesBefore(b, 1) == 2;
  }

  /**
   * The poll timeout of chat_client_update as written: the cast to int binds
   * to the seconds before the multiplication by 1000.
   */
  function PollMillisAsWritten(timeout: real): int
    requires timeout >= 0.0
  {
    timeout.Floor * 1000
  }

  /** As written, half a second of timeout polls for 0 ms, where 500 ms were meant. */
  lemma {:induction false} PollMillisAsWrittenTruncates()
    ensures PollMillisAsWritten(0.5) == 0 && WaitMillis(3, 0.5) == Some(500)
  {
  }

  /** The front scan of trim_message: the number of leading spaces in msg[..size]. */
  method CountFront(msg: array<char>, size: int) returns (front: nat)
    requires 0 <= size <= msg.Length
    ensures front == LeadingSpaces(msg[..size])
  {
    front := 0;
    while front < size && msg[front] == ' '
      invariant 0 <= front <= size
      invariant forall k :: 0 <= k < front ==> msg[..size][k] == ' '
    {
      front := front + 1;
    }
    LeadingSpacesIs(msg[..size], front);
  }

  /** The memcpy of trim_message: msg[front..size] moved to the front of msg. */
  method ShiftDown(msg: array<char>, size: int, front: nat)
    requires front <= size <= msg.Length
    modifies msg
    ensures msg[..size] == ShiftLeft(old(msg[..size]), front)
    ensures msg[size..] == old(msg[size..])
  {
    ghost var s := msg[..size];
    var k := 0;
    while k < size - front
      invariant 0 <= k <= size - front
      invariant forall j :: 0 <= j < k ==> msg[j] == s[j + front]
      invariant forall j :: k <= j < size ==> msg[j] == s[j]
      invariant msg[size..] == old(msg[size..])
    {
      msg[k] := msg[k + front];
      k := k + 1;
    }
    forall j | 0 <= j < size
      ensures msg[..size][j] == ShiftLeft(s, front)[j]
    {
      if j < size - front {
        assert ShiftLeft(s, front)[j] == s[front..][j];
      } else {
        assert ShiftLeft(s, front)[j] == s[size - front..][j - (size - front)];
      }
    }
  }

  /** The back scan of trim_message: the spaces running down from msg[size - 2]. */
  method CountBack(msg: array<char>, size: int) returns (back: nat)
    requires 0 <= size <= msg.Length
    ensures back == SpacesBefore(msg[..size], size - 2)
  {
    ghost var b := msg[..size];
    back := 0;
    var i := size - 2;
    while i >= 0 && msg[i] == ' '
      invariant (size == 0 && i == -2) || -1 <= i <= size - 2
      invariant back == size - 2 - i
      invariant SpacesBefore(b, size - 2) == back + SpacesBefore(b, i)
    {
      assert b[i] == msg[i];
      back := back + 1;
      i := i - 1;
    }
    if i >= 0 {
      assert b[i] == msg[i];
    }
  }

  /**
   * trim_message as written, in place on the first `size` bytes of `msg`:
   * returns the count converted to uint32_t.
   */
  method TrimMessage(msg: array<char>, size: int) returns (r: int)
    requires 0 <= size <= msg.Length
    modifies msg
    ensures msg[..size] == TrimAsWritten(old(msg[..size])).0
    ensures msg[size..] == old(msg[size..])
    ensures r == Wrap32(TrimAsWritten(old(msg[..size])).1)
  {
    ghost var s := msg[..size];
    var front := TrimFront(msg, size);
    ghost var t := msg[..size];
    var back := TrimBack(msg, size);
    TrimAsWrittenIs(s, front, back);
    assert msg[..size] == TrimAsWritten(s).0 by {
      assert |s| == size && t == ShiftLeft(s, front);
    }
    var n := size - front - back;
    r := Wrap32(n);
  }

  /** The front scan of trim_message and the shift of the rest down over the leading spaces. */
  method TrimFront(msg: array<char>, size: int) returns (front: nat)
    requires 0 <= size <= msg.Length
    modifies msg
    ensures front == LeadingSpaces(old(msg[..size]))
    ensures msg[..size] == ShiftLeft(old(msg[..size]), front)
    ensures msg[size..] == old(msg[size..])
  {
    ghost var s := msg[..size];
    front := CountFront(msg, size);
    if front > 0 {
      ShiftDown(msg, size, front);
    } else {
      assert ShiftLeft(s, 0) == s;
    }
  }

  /** The back scan of trim_message and its store of a newline after the last non-space. */
  method TrimBack(msg: array<char>, size: int) returns (back: nat)
    requires 0 <= size <= msg.Length
    modifies msg
    ensures back == SpacesBefore(old(msg[..size]), size - 2)
    ensures msg[..size] == if back > 0 then old(msg[..size])[size - back - 1 := '\n'] else old(msg[..size])
    ensures msg[size..] == old(msg[size..])
  {
    back := CountBack(msg, size);
    if back > 0 {
      MarkNewline(msg, size, size - back - 1);
    }
  }

  /** The final store of trim_message: a newline at msg[i], inside the first `size` bytes. */
  method MarkNewline(msg: array<char>, size: int, i: int)
    requires 0 <= i < size <= msg.Length
    modifies msg
    ensures msg[..size] == old(msg[..size])[i := '\n']
    ensures msg[size..] == old(msg[size..])
  {
    msg[i] := '\n';
  }

  /** trim_message as written, given its two counts. */
  lemma {:induction false} TrimAsWrittenIs(s: string, front: nat, back: nat)
    requires front == LeadingSpaces(s) && back == SpacesBefore(ShiftLeft(s, front), |s| - 2)
    ensures TrimAsWritten(s).1 == |s| - front - back
    ensures TrimAsWritten(s).0 == if back > 0 then ShiftLeft(s, front)[|s| - back - 1 := '\n'] else ShiftLeft(s, front)
  {
  }

  /** A run of spaces that ends before a non-space (or the end) is the leading-space count. */
  lemma {:induction false} LeadingSpacesIs(s: string, n: nat)
    requires n <= |s| && (forall k :: 0 <= k < n ==> s[k] == ' ') && (n < |s| ==> s[n] != ' ')
    ensures LeadingSpaces(s) == n
  {
  }

  /**
   * The send loop of chat_client_send_buf over the `full` bytes of complete
   * lines at the front of `buf`: how it ended, and the bytes handed to the
   * socket.
   */
  method SendPrefix(script: seq<SendResult>, buf: string, full: nat) returns (o: SendOutcome, wire: string)
    requires 0 < full <= |buf|
    ensures o == SendLoop(script, 0, 0, full) && wire == buf[..o.total]
  {
    var total: nat := 0;
    var sz: nat := full;
    var j: nat := 0;
    wire := [];
    while sz != 0
      invariant j <= Attempts && total + sz == full
      invariant SendLoop(script, j, total, sz) == SendLoop(script, 0, 0, full)
      invariant wire == buf[..total]
      decreases Attempts - j
    {
      var size := Min(sz, BufLimit);
      var attempt := if j == Attempts then WouldBlock else Attempt(script, j);
      var rc := SendRc(attempt, size);
      j := j + 1;
      if rc < 0 {
        return if attempt == WouldBlock then Blocked(total) else Broken(total), wire;
      } else if rc == 0 {
        return Broken(total), wire;
      }
      wire := wire + buf[total..total + rc];
      assert buf[..total + rc] == buf[..total] + buf[total..total + rc];
      sz := sz - rc;
      total := total + rc;
    }
    return Done(total), wire;
  }

  /**
   * The send loop of send_client_name over the name line `line` from byte
   * `from`: the bytes sent, whether it stopped on would-block, and the bytes
   * handed to the socket.
   */
  method SendNameFrom(script: seq<SendResult>, line: string, from: nat) returns (sent: nat, blocked: bool, wire: string)
    requires from < |line|
    ensures (sent, blocked) == NameLoop(script, 0, from, |line|) && wire == line[from..sent]
  {
    var sz := |line|;
    sent := from;
    var j: nat := 0;
    blocked := false;
    wire := [];
    while true
      invariant j <= Attempts && from <= sent < sz
      invariant NameLoop(script, j, sent, sz) == NameLoop(script, 0, from, sz)
      invariant wire == line[from..sent]
      decreases Attempts - j
    {
      var size := Min(sz - sent, BufLimit);
      var attempt := if j == Attempts then WouldBlock else Attempt(script, j);
      var rc := SendRc(attempt, size);
      if rc < 0 {
        blocked := attempt == WouldBlock;
        return;
      }
      NameLoopStep(script, j, sent, sz, rc);
      j := j + 1;
      wire := wire + line[sent..sent + rc];
      assert line[from..sent + rc] == line[from..sent] + line[sent..sent + rc];
      sent := sent + rc;
      if sent == sz {
        return;
      }
    }
  }

  class Client {
    /** Socket connected to the server; -1 before a successful connect. */
    var socket: int
    /** input_buf[0 .. input_buf_size): bytes not yet framed into a complete pair. */
    var input: string
    var received: seq<Message>
    /** output_buf[0 .. output_buf_size) */
    var out: string
    /** full_output_buf: the length of the complete-line prefix of `out`. */
    var full: nat
    /** The name, as the C string strdup copied. */
    var name: string
    /** Whether POLLOUT is among the events the client waits for. */
    var pollOut: bool
    var nameSent: bool
    /** some_name_sent: bytes of the name line already sent. */
    var someNameSent: nat

    /**
     * `full` marks the end of the last newline in the output buffer, POLLOUT
     * is requested while there is a complete line, nothing is queued before
     * a connection, and the name's progress stays inside the name line.
     */
    ghost predicate Valid()
      reads this
    {
      full <= |out| && '\n' !in out[full..] &&
      (full > 0 ==> out[full - 1] == '\n' && pollOut) &&
      (socket == -1 ==> out == []) &&
      '\0' !in name && someNameSent <= |name|
    }

    constructor(name: string)
      ensures Valid()
      ensures socket == -1 && input == [] && received == [] && out == [] && full == 0
      ensures this.name == CStr(name) && !pollOut && !nameSent && someNameSent == 0
    {
      socket := -1;
      input := [];
      received := [];
      out := [];
      full := 0;
      this.name := CStr(name);
      pollOut := false;
      nameSent := false;
      someNameSent := 0;
    }

    /**
     * chat_client_connect reduced to its outcome: refused once connected;
     * an address that does not resolve gives NO_ADDR, addresses that all
     * refuse give SYS with no socket, and a connection stores its socket and
     * asks for input only.
     */
    method Connect(outcome: ConnectOutcome) returns (r: ChatResult)
      requires Valid()
      modifies this`socket, this`pollOut
      ensures Valid()
      ensures old(socket) != -1 ==> r == Err(AlreadyStarted) && socket == old(socket) && pollOut == old(pollOut)
      ensures old(socket) == -1 ==>
        (outcome == Unresolved ==> r == Err(NoAddr) && socket == -1) &&
        (outcome == Refused ==> r == Err(Sys) && socket == -1) &&
        (outcome.Connected? ==> r == Ok(0) && socket == outcome.fd && !pollOut)
    {
      if socket != -1 {
        return Err(AlreadyStarted);
      }
      match outcome
      case Unresolved =>
        return Err(NoAddr);
      case Refused =>
        return Err(Sys);
      case Connected(fd) =>
        socket := fd;
        pollOut := false;
        return Ok(0);
    }

    /**
     * chat_client_feed: appends `msg` to the output buffer, moves the
     * complete-line mark past the last newline it brings, and asks for
     * POLLOUT while there is a complete line. NOT_STARTED without a socket.
     */
    method Feed(msg: string) returns (r: ChatResult)
      requires Valid()
      modifies this`out, this`full, this`pollOut
      ensures Valid()
      ensures old(socket) == -1 ==> r == Err(NotStarted) && out == old(out) && full == old(full) && pollOut == old(pollOut)
      ensures old(socket) != -1 ==>
        r == Ok(0) && out == old(out) + msg &&
        full == FullAfter(out, |old(out)|, old(full)) &&
        pollOut == (old(pollOut) || full != 0)
    {
      if socket == -1 {
        return Err(NotStarted);
      }
      var buf := out + msg;
      var f := ScanFull(buf, |out|, full);
      FeedKeepsMark(out, msg, full);
      out := buf;
      full := f;
      if full != 0 {
        pollOut := true;
      }
      return Ok(0);
    }

    /**
     * chat_client_send_buf with the would-block compaction corrected: sends
     * the complete-line prefix. Done: the sent bytes leave the buffer, the
     * mark drops to 0 and POLLOUT is cleared. Would-block: the bytes sent so
     * far leave the buffer and the mark drops by as many. A failed send or
     * one that returns 0 changes nothing. Also returns the bytes handed to
     * the socket.
     */
    method SendBuf(script: seq<SendResult>) returns (r: ChatResult, wire: string)
      requires Valid()
      modifies this`out, this`full, this`pollOut
      ensures Valid()
      ensures old(full) == 0 ==> r == Ok(0) && wire == [] && out == old(out) && full == 0 && pollOut == old(pollOut)
      ensures old(full) > 0 ==>
        var o := SendLoop(script, 0, 0, old(full));
        wire == old(out)[..o.total] &&
        (o.Done? ==> r == Ok(o.total) && out == old(out)[o.total..] && full == 0 && !pollOut) &&
        (o.Blocked? ==> r == Err(Sys) && out == old(out)[o.total..] && full == old(full) - o.total && pollOut == old(pollOut)) &&
        (o.Broken? ==> r == Err(Sys) && out == old(out) && full == old(full) && pollOut == old(pollOut))
    {
      if full == 0 {
        return Ok(0), [];
      }
      var o;
      o, wire := SendPrefix(script, out, full);
      ghost var o0, f0 := out, full;
      match o
      case Done(total) =>
        out := out[total..];
        full := 0;
        pollOut := false;
        assert out[full..] == o0[f0..];
        return Ok(total), wire;
      case Blocked(total) =>
        if total > 0 {
          out := out[total..];
          full := full - total;
          assert out[full..] == o0[f0..];
        }
        return Err(Sys), wire;
      case Broken(_) =>
        return Err(Sys), wire;
    }

    /**
     * send_client_name: sends the name line from where the last call left
     * off. On would-block with bytes still unsent it records how far it got;
     * otherwise (all sent, or any other error) the name counts as sent.
     * Also returns the bytes handed to the socket.
     */
    method SendClientName(script: seq<SendResult>) returns (r: int, wire: string)
      requires Valid()
      modifies this`someNameSent, this`nameSent
      ensures Valid() && r == 0
      ensures var line := name + "\n";
        var o := NameLoop(script, 0, old(someNameSent), |line|);
        wire == line[old(someNameSent)..o.0] &&
        (o.1 ==> o.0 < |line| && someNameSent == o.0 && nameSent == old(nameSent)) &&
        (!o.1 ==> someNameSent == old(someNameSent) && nameSent)
    {
      var line := name + "\n";
      var sent, blocked;
      sent, blocked, wire := SendNameFrom(script, line, someNameSent);
      if blocked && sent < |line| {
        someNameSent := sent;
        return 0, wire;
      }
      nameSent := true;
      return 0, wire;
    }

    /**
     * chat_client_receive_buf with the pair scan corrected: appends the
     * bytes of at most ten recv() calls to the input buffer; every complete
     * author line followed by a complete body line becomes one message, in
     * order; the bytes of an unfinished pair stay at the front of the buffer.
     * Returns the number of bytes received; with none nothing changes.
     */
    method ReceiveBuf(chunks: seq<seq<char>>) returns (n: int)
      modifies this`input, this`received
      ensures var got := Drain(chunks, Attempts); var s := old(input) + got;
        n == |got| &&
        (got == [] ==> input == old(input) && received == old(received)) &&
        (got != [] ==> received == old(received) + Pairs(s) && input == s[Kept(s)..])
    {
      var got := Receive(chunks, Attempts);
      input := input + got;
      n := |got|;
      if n == 0 {
        return;
      }
      var acc: seq<Message> := [];
      var start: nat := 0;
      var authorEnd: nat := 0;
      var first := true;
      var i: nat := 0;
      while i < |input|
        invariant input == old(input) + got && received == old(received)
        invariant start <= i <= |input| && (!first ==> start <= authorEnd < i)
        invariant acc + PairsFrom(input, start, authorEnd, first, i) == Pairs(input)
        invariant KeptFrom(input, start, authorEnd, first, i) == Kept(input)
      {
        PairsStep(input, start, authorEnd, first, i, acc);
        if input[i] == '\n' {
          if first {
            authorEnd := i;
            first := false;
          } else {
            var author := CStr(input[start..authorEnd]);
            var data := CStr(input[authorEnd + 1..i]);
            acc := acc + [Message(author, data)];
            first := true;
            start := i + 1;
            PairsAnyAuthor(input, start, authorEnd, start);
          }
        }
        i := i + 1;
      }
      received := received + acc;
      input := input[start..];
    }

    /** chat_client_pop_next: the oldest received message, removed from the queue; None when it is empty. */
    method PopNext() returns (m: Option<Message>)
      modifies this`received
      ensures old(received) == [] ==> m == None && received == []
      ensures old(received) != [] ==> m == Some(old(received)[0]) && received == old(received)[1..]
    {
      if |received| == 0 {
        return None;
      }
      var first := received[0];
      ghost var r0 := received;
      var i := 1;
      while i < |received|
        invariant 1 <= i <= |received| == |r0|
        invariant forall j :: 0 <= j < i - 1 ==> received[j] == r0[j + 1]
        invariant forall j :: i - 1 <= j < |r0| ==> received[j] == r0[j]
      {
        received := received[i - 1 := received[i]];
        i := i + 1;
      }
      received := received[..|received| - 1];
      return Some(first);
    }

    /** chat_client_get_events: nothing before connect; output too while POLLOUT is requested. */
    function GetEvents(): (e: Events)
      reads this
      ensures socket == -1 ==> !e.input && !e.output
      ensures socket != -1 ==> e.input && (e.output <==> pollOut)
    {
      if socket == -1 then Events(false, false) else Events(true, pollOut)
    }

    /** With a connection, the client asks to write exactly while complete lines wait in its buffer. */
    lemma {:induction false} OutputWhileLinesQueued()
      requires Valid() && socket != -1
      ensures full > 0 ==> GetEvents().output
    {
    }
  }
}
