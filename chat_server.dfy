/**
 * The chat server of lab5: a registry of connected peers, each with the
 * bytes queued for it; a queue of received messages; and an input buffer
 * that holds the bytes of the latest read until they are broadcast.
 * Sockets are inputs: a read is a sequence of received chunks and a flush
 * is a script of send() outcomes.
 */
module ChatServer {
  import opened Framing

  /** A connected client: its socket, its name once its first line has arrived, and the bytes queued for it. */
  datatype Peer = Peer(socket: int, name: Option<string>, out: seq<char>)

  /**
   * No two peers share a socket. This holds because a closed connection
   * removes the peer of that very socket (ServeInput, DeletePeer); with the
   * event-0 deletion as written, a closed socket can stay registered and be
   * handed out again by accept.
   */
  predicate DistinctSockets(peers: seq<Peer>)
  {
    forall i, j :: 0 <= i < j < |peers| ==> peers[i].socket != peers[j].socket
  }

  /** Text that the wire format carries unchanged: no newline, no NUL. */
  predicate Plain(s: string)
  {
    '\n' !in s && '\0' !in s
  }

  /** Index of the first peer whose socket is `fd`, or -1. */
  function Lookup(peers: seq<Peer>, fd: int): (k: int)
    ensures -1 <= k < |peers|
    ensures k >= 0 ==> peers[k].socket == fd
  {
    if peers == [] then -1
    else if peers[0].socket == fd then 0
    else
      var k := Lookup(peers[1..], fd);
      if k < 0 then -1 else k + 1
  }

  /** Lookup finds the first peer with the socket, and finds none exactly when no peer has it. */
  lemma {:induction false} LookupFirst(peers: seq<Peer>, fd: int)
    ensures forall j :: 0 <= j < |peers| && (j < Lookup(peers, fd) || Lookup(peers, fd) < 0) ==> peers[j].socket != fd
  {
    if peers != [] && peers[0].socket != fd {
      LookupFirst(peers[1..], fd);
      forall j | 0 < j < |peers|
        ensures peers[j] == peers[1..][j - 1]
      {
      }
    }
  }

  /** An index that is the first with the socket (or -1 when none has it) is what Lookup returns. */
  lemma {:induction false} LookupIs(peers: seq<Peer>, fd: int, k: int)
    requires -1 <= k < |peers|
    requires k >= 0 ==> peers[k].socket == fd
    requires forall j :: 0 <= j < |peers| && (j < k || k < 0) ==> peers[j].socket != fd
    ensures Lookup(peers, fd) == k
  {
    if peers != [] && k != 0 {
      forall j | 0 <= j < |peers[1..]| && (j < k - 1 || k < 0)
        ensures peers[1..][j].socket != fd
      {
        assert peers[1..][j] == peers[j + 1];
      }
      LookupIs(peers[1..], fd, if k < 0 then -1 else k - 1);
    }
  }

  /** With distinct sockets, the peer holding a socket is the one Lookup finds. */
  lemma {:induction false} LookupUnique(peers: seq<Peer>, i: int)
    requires DistinctSockets(peers) && 0 <= i < |peers|
    ensures Lookup(peers, peers[i].socket) == i
  {
    LookupIs(peers, peers[i].socket, i);
  }

  /** The registry invariant: distinct sockets, and every name set so far is plain text. */
  predicate Registered(peers: seq<Peer>)
  {
    DistinctSockets(peers) &&
    forall i :: 0 <= i < |peers| && peers[i].name.Some? ==> Plain(peers[i].name.value)
  }

  /** Every stored message survives the wire format. */
  predicate AllClean(ms: seq<Message>)
  {
    forall i :: 0 <= i < |ms| ==> Clean(ms[i])
  }

  /** Registries with the same sockets in the same places agree on every lookup. */
  lemma {:induction false} LookupSameSockets(a: seq<Peer>, b: seq<Peer>, fd: int)
    requires |a| == |b| && forall j :: 0 <= j < |a| ==> a[j].socket == b[j].socket
    ensures Lookup(a, fd) == Lookup(b, fd)
  {
    if a != [] {
      assert a[0].socket == b[0].socket;
      forall j | 0 <= j < |a[1..]|
        ensures a[1..][j].socket == b[1..][j].socket
      {
        assert a[1..][j] == a[j + 1] && b[1..][j] == b[j + 1];
      }
      LookupSameSockets(a[1..], b[1..], fd);
    }
  }

  /** Changing only the names and queues of a registry keeps it registered when the names are plain. */
  lemma {:induction false} SameSocketsRegistered(a: seq<Peer>, b: seq<Peer>)
    requires Registered(a) && |a| == |b|
    requires forall j :: 0 <= j < |a| ==> a[j].socket == b[j].socket
    requires forall j :: 0 <= j < |b| && b[j].name.Some? ==> Plain(b[j].name.value)
    ensures Registered(b)
  {
    forall i, j | 0 <= i < j < |b|
      ensures b[i].socket != b[j].socket
    {
      assert a[i].socket != a[j].socket;
    }
  }

  /** `peers` without the entry at `k`, the others in their order. */
  function Remove(peers: seq<Peer>, k: int): (r: seq<Peer>)
    requires 0 <= k < |peers|
    ensures |r| == |peers| - 1
  {
    peers[..k] + peers[k + 1..]
  }

  /** Removing the peer with a socket leaves a registry without it, still with distinct sockets. */
  lemma {:induction false} RemoveForgets(peers: seq<Peer>, fd: int)
    requires DistinctSockets(peers) && Lookup(peers, fd) >= 0
    ensures var r := Remove(peers, Lookup(peers, fd)); DistinctSockets(r) && Lookup(r, fd) < 0
  {
    var k := Lookup(peers, fd);
    var r := Remove(peers, k);
    forall j | 0 <= j < |r|
      ensures r[j] == peers[if j < k then j else j + 1]
    {
    }
    forall j | 0 <= j < |r|
      ensures r[j].socket != fd
    {
      assert r[j] == peers[if j < k then j else j + 1];
    }
    LookupIs(r, fd, -1);
  }

  /** The messages a read adds: one per line, the line as a C string, authored by the peer's name. */
  function Stamp(author: string, lines: seq<string>): (ms: seq<Message>)
    ensures |ms| == |lines|
  {
    seq(|lines|, i requires 0 <= i < |lines| => Message(author, CStr(lines[i])))
  }

  lemma {:induction false} StampSnoc(author: string, lines: seq<string>, line: string)
    ensures Stamp(author, lines + [line]) == Stamp(author, lines) + [Message(author, CStr(line))]
  {
    var a := Stamp(author, lines + [line]);
    var b := Stamp(author, lines) + [Message(author, CStr(line))];
    forall i | 0 <= i < |a|
      ensures a[i] == b[i]
    {
      if i < |lines| {
        assert (lines + [line])[i] == lines[i];
      }
    }
  }

  /**
   * A peer's name and the bytes still to frame after it sent `buf`: a peer
   * without a name takes its first line (without the newline) as its name,
   * and that line is not framed; otherwise the whole buffer is framed.
   */
  function Named(name: Option<string>, buf: string): (r: (Option<string>, string))
  {
    if name.Some? then (name, buf)
    else
      var k := NewlineAt(buf);
      if k < 0 then (name, buf) else (Some(CStr(buf[..k])), buf[k + 1..])
  }

  /** The messages framed out of `body` for a peer called `name`; a peer without a name has none. */
  function Incoming(name: Option<string>, body: string): (ms: seq<Message>)
  {
    if name.None? then [] else Stamp(name.value, Lines(body))
  }

  /**
   * What a broadcast appends to the other peers' queues: the batch of the
   * `pending` newest messages, or, when no complete message is pending, the
   * raw bytes of the last read.
   */
  function Batch(pending: nat, received: seq<Message>, input: string): string
    requires pending <= |received|
  {
    if pending == 0 then input else Encode(received[|received| - pending..])
  }

  /** The registry after `batch` is queued for every peer other than the one on socket `fd`. */
  function Broadcast(peers: seq<Peer>, fd: int, batch: string): (r: seq<Peer>)
    ensures |r| == |peers|
  {
    seq(|peers|, i requires 0 <= i < |peers| => if peers[i].socket == fd then peers[i] else peers[i].(out := peers[i].out + batch))
  }

  /** A broadcast keeps every peer's socket and name, leaves the sender's queue alone and appends the batch to every other queue. */
  lemma {:induction false} BroadcastQueues(peers: seq<Peer>, fd: int, batch: string, i: nat)
    requires i < |peers|
    ensures var r := Broadcast(peers, fd, batch);
      r[i].socket == peers[i].socket && r[i].name == peers[i].name &&
      r[i].out == if peers[i].socket == fd then peers[i].out else peers[i].out + batch
  {
  }

  /** A batch of pending messages is what a client decodes back into exactly those messages. */
  lemma {:induction false} BatchDecodes(pending: nat, received: seq<Message>, input: string)
    requires AllClean(received) && 0 < pending <= |received|
    ensures Pairs(Batch(pending, received, input)) == received[|received| - pending..]
  {
    RoundTrip(received[|received| - pending..]);
  }

  /** How a run of send() calls over `size` queued bytes ended. */
  datatype Flushed = Flushed(sent: nat, blocked: bool)

  /**
   * The send loop of send_message_to_client from attempt `j` with `pointer`
   * bytes of `size` already sent: it stops when everything is sent, on a
   * send that returns 0, or on would-block; it tries again after any other
   * error.
   */
  function Flush(script: seq<SendResult>, j: nat, pointer: nat, size: nat): (r: Flushed)
    requires pointer <= size
    ensures pointer <= r.sent <= size
    ensures !r.blocked && r.sent < size ==> exists t :: j <= t < |script| && script[t] == Accepted(0)
    decreases |script| - j
  {
    if pointer == size then Flushed(pointer, false)
    else match Attempt(script, j)
      case WouldBlock => Flushed(pointer, true)
      case Failed => Flush(script, j + 1, pointer, size)
      case Accepted(n) =>
        if n == 0 then Flushed(pointer, false)
        else Flush(script, j + 1, pointer + SendRc(Accepted(n), size - pointer), size)
  }

  /** A peer that keeps taking bytes and never blocks receives its whole queue. */
  lemma {:induction false} FlushDrains(script: seq<SendResult>, j: nat, pointer: nat, size: nat)
    requires pointer <= size && size - pointer <= |script| - j
    requires forall t :: j <= t < |script| ==> script[t].Accepted? && script[t].n > 0
    ensures Flush(script, j, pointer, size) == Flushed(size, false)
    decreases |script| - j
  {
    if pointer < size {
      FlushDrains(script, j + 1, pointer + SendRc(script[j], size - pointer), size);
    }
  }

  /**
   * The queue the would-block branch of send_message_to_client leaves, as
   * written: the unsent bytes move to the front, a NUL follows them, and the
   * size stays what it was, so the tail of the old queue is still counted.
   */
  function CompactAsWritten(out: seq<char>, pointer: nat): (r: seq<char>)
    requires pointer <= |out|
    ensures |r| == |out|
  {
    if pointer == 0 then out else out[pointer..] + ['\0'] + out[|out| - pointer + 1..]
  }

  /**
   * After a partial send the queue as written still has its old size: the
   * next flush sends a NUL and bytes that were already delivered, where the
   * corrected queue holds only the unsent bytes.
   */
  lemma {:induction false} CompactAsWrittenResends()
    ensures CompactAsWritten("abcdef", 2) == "cdef\0f"
    ensures CompactAsWritten("abcdef", 2) != "abcdef"[2..]
  {
  }

  /** The steps of chat_server_listen that can fail, in the order they run; `Listening` when none does. */
  datatype ListenStep = SocketFails | OptionFails | BindBusy | BindFails | ListenFails | EpollFails | RegisterFails | Listening

  /** The code chat_server_listen returns once the guard has passed. */
  function ListenCode(step: ListenStep): (r: ChatResult)
    ensures r == Ok(0) <==> step == Listening
    ensures r == Err(PortBusy) <==> step == BindBusy
  {
    match step
    case Listening => Ok(0)
    case BindBusy => Err(PortBusy)
    case _ => Err(Sys)
  }

  /**
   * chat_server_listen as written, on the server's socket field: the socket
   * is stored as soon as socket() returns it (`fd`, or -1 when it fails) and
   * is left there when a later step fails.
   */
  function ListenAsWritten(socket: int, fd: int, step: ListenStep): (r: (int, ChatResult))
  {
    if socket != -1 then (socket, Err(AlreadyStarted))
    else if step == SocketFails then (-1, Err(Sys))
    else (fd, ListenCode(step))
  }

  /** As written, a listen that fails at bind leaves the socket set, so a second try is refused. */
  lemma {:induction false} ListenRetryRefusedAsWritten()
    ensures ListenAsWritten(-1, 3, BindBusy) == (3, Err(PortBusy))
    ensures ListenAsWritten(3, 4, Listening) == (3, Err(AlreadyStarted))
  {
  }

  class Server {
    /** Listening socket; -1 before a successful listen. */
    var socket: int
    var peers: seq<Peer>
    /** received_messages[0 .. n_received_messages) */
    var received: seq<Message>
    /** input_buf_complete_messages_n: how many of the newest messages are not yet broadcast. */
    var pending: nat
    /** input_buf[0 .. input_buf_size) */
    var input: seq<char>

    ghost predicate Valid()
      reads this
    {
      Registered(peers) && AllClean(received)
    }

    constructor()
      ensures Valid()
      ensures socket == -1 && peers == [] && received == [] && pending == 0 && input == []
    {
      socket := -1;
      peers := [];
      received := [];
      pending := 0;
      input := [];
    }

    /** find_peer: the index of the first peer with socket `fd`, or -1. */
    method FindPeer(fd: int) returns (k: int)
      ensures k == Lookup(peers, fd)
      ensures k >= 0 ==> 0 <= k < |peers| && peers[k].socket == fd && forall j :: 0 <= j < k ==> peers[j].socket != fd
      ensures k < 0 ==> k == -1 && forall j :: 0 <= j < |peers| ==> peers[j].socket != fd
    {
      var i := 0;
      while i < |peers|
        invariant 0 <= i <= |peers|
        invariant forall j :: 0 <= j < i ==> peers[j].socket != fd
      {
        if peers[i].socket == fd {
          LookupIs(peers, fd, i);
          return i;
        }
        i := i + 1;
      }
      LookupIs(peers, fd, -1);
      return -1;
    }

    /**
     * delete_peer: removes the peer with socket `fd`, shifting the later
     * peers down one place; with no such peer nothing changes.
     */
    method DeletePeer(fd: int)
      requires Valid()
      modifies this`peers
      ensures Valid()
      ensures var k := Lookup(old(peers), fd); peers == if k < 0 then old(peers) else Remove(old(peers), k)
      ensures Lookup(peers, fd) < 0
    {
      ghost var p0 := peers;
      ghost var k := Lookup(peers, fd);
      LookupFirst(peers, fd);
      var n := |peers|;
      var shift := false;
      var i := 0;
      while i < n
        invariant 0 <= i <= n == |peers| == |p0|
        invariant shift <==> 0 <= k < i
        invariant forall j :: 0 <= j < n && (j < k || k < 0 || i <= j) ==> peers[j] == p0[j]
        invariant forall j :: 0 <= k <= j < i && j + 1 < n ==> peers[j] == p0[j + 1]
      {
        if peers[i].socket == fd {
          if k != i {
            LookupUnique(p0, i);
            assert false;
          }
          shift := true;
        }
        if shift && i + 1 < n {
          peers := peers[i := peers[i + 1]];
        }
        i := i + 1;
      }
      if shift {
        peers := peers[..n - 1];
        assert peers == Remove(p0, k);
        RemoveForgets(p0, fd);
      } else {
        assert peers == p0;
      }
    }

    /** chat_server_pop_next: the oldest received message, removed from the queue; None when it is empty. */
    method PopNext() returns (m: Option<Message>)
      requires Valid()
      modifies this`received
      ensures Valid()
      ensures old(received) == [] ==> m == None && received == []
      ensures old(received) != [] ==> m == Some(old(received)[0]) && received == old(received)[1..]
    {
      if |received| == 0 {
        return None;
      }
      var first := received[0];
      ghost var r0 := received;
      var i := 1;
      while i < |received|
        invariant 1 <= i <= |received| == |r0|
        invariant forall j :: 0 <= j < i - 1 ==> received[j] == r0[j + 1]
        invariant forall j :: i - 1 <= j < |r0| ==> received[j] == r0[j]
      {
        received := received[i - 1 := received[i]];
        i := i + 1;
      }
      received := received[..|received| - 1];
      return Some(first);
    }

    /**
     * concatenate_authors_and_messages: with messages pending, the input
     * buffer becomes their batch and the pending count drops to 0; with none
     * pending nothing changes.
     */
    method ConcatenateAuthorsAndMessages()
      requires Valid() && pending <= |received|
      modifies this`input, this`pending
      ensures Valid() && pending == 0
      ensures input == Batch(old(pending), received, old(input))
    {
      var n := pending;
      if n == 0 {
        return;
      }
      var offset := |received| - n;
      var result: seq<char> := [];
      var i := 0;
      while i < n
        invariant 0 <= i <= n && offset + n == |received|
        invariant result == Encode(received[offset..offset + i])
      {
        // The stored fields hold no NUL, so strlen counts all of them.
        var m := received[offset + i];
        result := result + m.author + "\n" + m.data + "\n";
        assert result == Encode(received[offset..offset + i]) + Head(m);
        assert received[offset..offset + i + 1] == received[offset..offset + i] + [m];
        EncodeSnoc(received[offset..offset + i], m);
        i := i + 1;
      }
      assert received[offset..offset + n] == received[offset..];
      input := result;
      pending := 0;
    }

    /**
     * send_message_to_clients: the batch (or the raw input when no message
     * is pending) is appended to the queue of every peer except the sender;
     * the input buffer is emptied.
     */
    method SendMessageToClients(fd: int) returns (rc: int)
      requires Valid() && pending <= |received|
      modifies this`input, this`pending, this`peers
      ensures Valid() && rc == 0 && input == [] && pending == 0
      ensures peers == Broadcast(old(peers), fd, Batch(old(pending), old(received), old(input)))
    {
      ConcatenateAuthorsAndMessages();
      var batch := input;
      ghost var p0 := peers;
      var i := 0;
      while i < |peers|
        invariant 0 <= i <= |peers| == |p0|
        invariant input == batch && pending == 0
        invariant forall j :: 0 <= j < i ==> peers[j] == if p0[j].socket == fd then p0[j] else p0[j].(out := p0[j].out + batch)
        invariant forall j :: i <= j < |peers| ==> peers[j] == p0[j]
        invariant forall j :: 0 <= j < |peers| ==> peers[j].socket == p0[j].socket && peers[j].name == p0[j].name
        invariant Registered(peers)
      {
        var s := peers[i].socket;
        if s != fd {
          var k := FindPeer(s);
          LookupUnique(peers, i);
          ghost var before := peers;
          peers := peers[k := peers[k].(out := peers[k].out + input)];
          SameSocketsRegistered(before, peers);
        }
        i := i + 1;
      }
      input := [];
      return 0;
    }

    /**
     * read_message_from_client: collects the bytes of one read into a fresh
     * input buffer, takes the peer's name from its first line if it has
     * none, and queues one message per later line. Returns the number of
     * bytes read.
     */
    method ReadMessageFromClient(fd: int, chunks: seq<seq<char>>) returns (total: int)
      requires Valid() && input == [] && Lookup(peers, fd) >= 0
      modifies this`input, this`received, this`pending, this`peers
      ensures Valid()
      ensures var k := Lookup(old(peers), fd);
        var named := Named(old(peers)[k].name, Drain(chunks, |chunks|));
        total == |Drain(chunks, |chunks|)| &&
        peers == old(peers)[k := old(peers)[k].(name := named.0)] &&
        input == named.1 &&
        received == old(received) + Incoming(named.0, named.1) &&
        pending == old(pending) + |Incoming(named.0, named.1)|
    {
      var buf := Receive(chunks, |chunks|);
      input := buf;
      total := |buf|;
      var k := FindPeer(fd);
      if total > 0 {
        ReadLines(k);
      } else {
        assert Lines(input) == [];
        assert received + [] == received;
      }
    }

    /**
     * The framing loop of read_message_from_client over the input buffer,
     * for the peer at index `k`. The loop restarts from the top of the
     * buffer once it has taken the peer's name, so it runs as a scan for
     * the first newline (only while the peer has no name) followed by a
     * scan that frames the lines.
     */
    method ReadLines(k: int)
      requires Valid() && 0 <= k < |peers|
      modifies this`input, this`received, this`pending, this`peers
      ensures Valid()
      ensures var named := Named(old(peers)[k].name, old(input));
        peers == old(peers)[k := old(peers)[k].(name := named.0)] &&
        input == named.1 &&
        received == old(received) + Incoming(named.0, named.1) &&
        pending == old(pending) + |Incoming(named.0, named.1)|
    {
      if peers[k].name.None? {
        var i := 0;
        while i < |input| && input[i] != '\n'
          invariant 0 <= i <= |input| && '\n' !in input[..i]
        {
          assert input[..i + 1] == input[..i] + [input[i]];
          i := i + 1;
        }
        if i == |input| {
          assert input[..i] == input;
          assert received + [] == received;
          return;
        }
        TakeName(k, i);
      }
      FrameLines(k);
    }

    /** The lines of the input buffer become messages from the named peer at `k`, in order. */
    method FrameLines(k: int)
      requires Valid() && 0 <= k < |peers| && peers[k].name.Some?
      modifies this`received, this`pending
      ensures Valid()
      ensures received == old(received) + Stamp(peers[k].name.value, Lines(input))
      ensures pending == old(pending) + |Lines(input)|
    {
      ghost var r0, n0 := received, pending;
      ghost var lines: seq<string> := [];
      var start := 0;
      var i := 0;
      while i < |input|
        invariant 0 <= start <= i <= |input|
        invariant Valid() && '\n' !in input[start..i]
        invariant lines + LinesFrom(input, start, i) == Lines(input)
        invariant received == r0 + Stamp(peers[k].name.value, lines) && pending == n0 + |lines|
      {
        if input[i] == '\n' {
          ghost var line := input[start..i];
          StampSnoc(peers[k].name.value, lines, line);
          LinesEmit(input, start, i, lines);
          AddMessage(k, start, i);
          lines := lines + [line];
          start := i + 1;
        } else {
          LinesPass(input, start, i);
        }
        i := i + 1;
      }
    }

    /**
     * The naming branch of read_message_from_client: the line before the
     * first newline, at `i`, becomes the name of the peer at `k` and leaves
     * the input buffer.
     */
    method TakeName(k: int, i: int)
      requires Valid() && 0 <= k < |peers| && peers[k].name.None?
      requires 0 <= i < |input| && input[i] == '\n' && '\n' !in input[..i]
      modifies this`peers, this`input
      ensures Valid()
      ensures |peers| == |old(peers)| && peers == old(peers)[k := old(peers)[k].(name := peers[k].name)]
      ensures (peers[k].name, input) == Named(None, old(input))
    {
      NewlineAtIs(input, i);
      CStrPlain(input[..i]);
      ghost var p0 := peers;
      peers := peers[k := peers[k].(name := Some(CStr(input[..i])))];
      SameSocketsRegistered(p0, peers);
      input := input[i + 1..];
    }

    /**
     * The message branch of read_message_from_client: the line from `start`
     * to the newline at `i`, as a C string, is queued as a message from the
     * peer at `k` and counted as pending.
     */
    method AddMessage(k: int, start: int, i: int)
      requires Valid() && 0 <= k < |peers| && peers[k].name.Some?
      requires 0 <= start <= i < |input| && '\n' !in input[start..i]
      modifies this`received, this`pending
      ensures Valid()
      ensures received == old(received) + [Message(peers[k].name.value, CStr(input[start..i]))]
      ensures pending == old(pending) + 1
    {
      CStrPlain(input[start..i]);
      received := received + [Message(peers[k].name.value, CStr(input[start..i]))];
      pending := pending + 1;
    }

    /**
     * send_message_to_client with the would-block branch corrected: sends
     * the queue of the peer with socket `fd`; on would-block the unsent
     * bytes, and only they, stay queued and the count sent is returned; when
     * the loop ends otherwise the queue is emptied and 0 is returned. An
     * unknown socket gives -1, an empty queue 0 with nothing changed.
     */
    method SendMessageToClient(fd: int, script: seq<SendResult>) returns (rc: int)
      requires Valid()
      modifies this`peers
      ensures Valid()
      ensures var k := Lookup(old(peers), fd);
        (k < 0 ==> rc == -1 && peers == old(peers)) &&
        (k >= 0 && old(peers)[k].out == [] ==> rc == 0 && peers == old(peers))
      ensures var k := Lookup(old(peers), fd);
        k >= 0 && old(peers)[k].out != [] ==>
          var out := old(peers)[k].out;
          var f := Flush(script, 0, 0, |out|);
          rc == (if f.blocked then f.sent else 0) &&
          peers == old(peers)[k := old(peers)[k].(out := if f.blocked then out[f.sent..] else [])]
    {
      var k := FindPeer(fd);
      if k < 0 {
        return -1;
      }
      var out := peers[k].out;
      if |out| == 0 {
        return 0;
      }
      var pointer := 0;
      var j := 0;
      while pointer < |out|
        invariant 0 <= pointer <= |out| && 0 <= j
        invariant Flush(script, j, pointer, |out|) == Flush(script, 0, 0, |out|)
        decreases |script| - j
      {
        var r := Attempt(script, j);
        var sent := SendRc(r, |out| - pointer);
        if sent < 0 {
          if r == WouldBlock {
            peers := peers[k := peers[k].(out := out[pointer..])];
            return pointer;
          }
        } else if sent == 0 {
          break;
        } else {
          pointer := pointer + sent;
        }
        j := j + 1;
      }
      peers := peers[k := peers[k].(out := [])];
      return 0;
    }

    /** chat_server_get_events: nothing before listen; output too while some peer has bytes queued. */
    method GetEvents() returns (e: Events)
      ensures socket == -1 ==> e == Events(false, false)
      ensures socket != -1 ==> e == Events(true, exists i :: 0 <= i < |peers| && peers[i].out != [])
    {
      if socket == -1 {
        return Events(false, false);
      }
      var i := 0;
      while i < |peers|
        invariant 0 <= i <= |peers|
        invariant forall j :: 0 <= j < i ==> peers[j].out == []
      {
        if |peers[i].out| != 0 {
          return Events(true, true);
        }
        i := i + 1;
      }
      return Events(true, false);
    }

    /**
     * chat_server_listen with its failure paths corrected: refused once a
     * socket is set; otherwise `step` says which operating-system step
     * failed, and any failure leaves the server without a socket so that it
     * can try again. `fd` is the descriptor socket() returns.
     */
    method Listen(fd: int, step: ListenStep) returns (r: ChatResult)
      requires fd >= 0
      modifies this`socket
      ensures old(socket) != -1 ==> r == Err(AlreadyStarted) && socket == old(socket)
      ensures old(socket) == -1 ==> r == ListenCode(step) && socket == (if step == Listening then fd else -1)
    {
      if socket != -1 {
        return Err(AlreadyStarted);
      }
      if step == SocketFails {
        return Err(Sys);
      }
      socket := fd;
      r := ListenCode(step);
      if step != Listening {
        socket := -1;
      }
    }

    /**
     * The read half of the EPOLLIN branch of chat_server_update: read from
     * the peer on socket `fd` and, when the read finds the connection
     * closed, delete that peer (not the peer of event 0).
     */
    method ReadOrDrop(fd: int, chunks: seq<seq<char>>) returns (total: int)
      requires Valid() && input == [] && Lookup(peers, fd) >= 0
      modifies this`input, this`received, this`pending, this`peers
      ensures Valid()
      ensures var k := Lookup(old(peers), fd);
        var named := Named(old(peers)[k].name, Drain(chunks, |chunks|));
        var ms := Incoming(named.0, named.1);
        total == |Drain(chunks, |chunks|)| && input == named.1 &&
        received == old(received) + ms && pending == old(pending) + |ms|
      ensures var k := Lookup(old(peers), fd);
        var named := Named(old(peers)[k].name, Drain(chunks, |chunks|));
        if total > 0 then peers == old(peers)[k := old(peers)[k].(name := named.0)] && Lookup(peers, fd) >= 0
        else input == [] && received == old(received) && peers == Remove(old(peers), k) && Lookup(peers, fd) < 0
    {
      ghost var p0 := peers;
      total := ReadMessageFromClient(fd, chunks);
      LookupSameSockets(p0, peers, fd);
      if total == 0 {
        assert peers == p0;
        DeletePeer(fd);
      }
    }

    /**
     * The EPOLLIN branch of chat_server_update for the event on socket
     * `fd`: the read of ReadOrDrop, then a broadcast of what it framed
     * (or of the raw read) to every other peer.
     */
    method ServeInput(fd: int, chunks: seq<seq<char>>) returns (total: int)
      requires Valid() && input == [] && Lookup(peers, fd) >= 0 && pending <= |received|
      modifies this`input, this`received, this`pending, this`peers
      ensures Valid() && input == [] && pending == 0
      ensures total == |Drain(chunks, |chunks|)|
      ensures total == 0 ==> Lookup(peers, fd) < 0 && |peers| == |old(peers)| - 1
      ensures total > 0 ==> Lookup(peers, fd) >= 0 && |peers| == |old(peers)|
      ensures var k := Lookup(old(peers), fd);
        var named := Named(old(peers)[k].name, Drain(chunks, |chunks|));
        received == old(received) + Incoming(named.0, named.1)
      ensures var k := Lookup(old(peers), fd);
        var named := Named(old(peers)[k].name, Drain(chunks, |chunks|));
        var batch := Batch(old(pending) + |received| - |old(received)|, received, named.1);
        if total > 0 then peers == Broadcast(old(peers)[k := old(peers)[k].(name := named.0)], fd, batch)
        else received == old(received) && peers == Broadcast(Remove(old(peers), k), fd, batch)
    {
      ghost var r0, q0 := received, pending;
      total := ReadOrDrop(fd, chunks);
      ghost var p1 := peers;
      ghost var batch := Batch(pending, received, input);
      assert pending == q0 + |received| - |r0|;
      var _ := SendMessageToClients(fd);
      assert peers == Broadcast(p1, fd, batch);
      LookupSameSockets(p1, peers, fd);
    }
  }

  /** The socket the connection-closed branch of chat_server_update deletes for event `i`, as written: event 0's. */
  function DisconnectedAsWritten(events: seq<int>, i: nat): int
    requires i < |events|
  {
    events[0]
  }

  /** As written, a peer that closes while it is not the first event leaves the first event's peer deleted instead. */
  lemma {:induction false} DisconnectWrongPeerAsWritten()
    ensures DisconnectedAsWritten([5, 7], 1) == 5
  {
  }

  /**
   * Reads are not joined: a read that ends without a newline is broadcast
   * raw, so a line split across two reads reaches the other peers as a bare
   * fragment followed by a message holding only the rest of the line.
   */
  lemma {:induction false} FragmentBroadcastRaw()
    ensures Incoming(Some("bob"), "hel") == []
    ensures Batch(0, [], "hel") == "hel"
    ensures Incoming(Some("bob"), "lo\n") == [Message("bob", "lo")]
  {
    LinesOfJoin(["lo"], "");
    assert JoinLines(["lo"]) + "" == "lo\n";
  }
}
