/**
 * The Rio ("robust I/O") package of csapp.c: the unbuffered retry loops
 * rio_readn and rio_writen, and the buffered reader rio_t with rio_readinitb,
 * rio_read, rio_readnb and rio_readlineb.
 *
 * A descriptor is modelled by what read(2) and write(2) will answer on it,
 * in order: a read delivers some bytes, is interrupted by a signal (EINTR)
 * or fails; once the read answers run out the descriptor is at end of file.
 * A write accepts some bytes, is interrupted or fails; once the write answers
 * run out every write is accepted in full.
 */
module Rio {
  import opened Wrappers

  /** RIO_BUFSIZE, MAXLINE and MAXBUF of csapp.h. */
  const RIO_BUFSIZE: nat := 8192
  const MAXLINE: nat := 8192
  const MAXBUF: nat := 8192

  // ---------------------------------------------------------------------------
  // Descriptors

  /** One answer of read(2): bytes (at most what was asked for are taken, the
      rest stay for the next read), EINTR, or another error. */
  datatype ReadEvent = Chunk(data: string) | Interrupted | Failed

  /** One answer of write(2): how many bytes it accepts, EINTR, or another error. */
  datatype WriteEvent = Accepted(count: nat) | WriteInterrupted | WriteFailed

  /** The bytes a sequence of read answers delivers, in order. */
  function Stream(events: seq<ReadEvent>): string {
    if events == [] then []
    else (if events[0].Chunk? then events[0].data else []) + Stream(events[1..])
  }

  /** A read answer never delivers zero bytes: zero bytes is end of file. */
  predicate ReadScript(events: seq<ReadEvent>) {
    events == [] || ((events[0].Chunk? ==> events[0].data != []) && ReadScript(events[1..]))
  }

  /** A write answer that accepts bytes accepts at least one. */
  predicate WriteScript(events: seq<WriteEvent>) {
    forall i | 0 <= i < |events| :: events[i].Accepted? ==> events[i].count > 0
  }

  /** No read answer is an error other than EINTR. */
  predicate NoReadFaults(events: seq<ReadEvent>) {
    forall i | 0 <= i < |events| :: !events[i].Failed?
  }

  /** No write answer is an error other than EINTR. */
  predicate NoWriteFaults(events: seq<WriteEvent>) {
    forall i | 0 <= i < |events| :: !events[i].WriteFailed?
  }

  /** What is left to read, counting each answer once more: every read that
      does not hit end of file lowers it. */
  function Weight(events: seq<ReadEvent>): nat {
    |Stream(events)| + |events|
  }

  lemma DropPrefix(u: string, v: string, r: nat)
    requires r <= |u|
    ensures (u + v)[r..] == u[r..] + v
  {
  }

  /** `t` is what is left of `s` once some prefix has been taken. */
  predicate IsSuffix(t: string, s: string) {
    |t| <= |s| && t == s[|s| - |t|..]
  }

  lemma SuffixFrom(s: string, i: nat)
    requires i <= |s|
    ensures IsSuffix(s[i..], s)
  {
  }

  /** The answers left after a read took `r` bytes of the first, a chunk. */
  function AfterChunk(events: seq<ReadEvent>, r: nat): seq<ReadEvent>
    requires events != [] && events[0].Chunk? && r <= |events[0].data|
  {
    var d := events[0].data;
    (if r == |d| then [] else [Chunk(d[r..])]) + events[1..]
  }

  /** A chunk in front of `tail` delivers its bytes first. */
  lemma ChunkFront(d: string, tail: seq<ReadEvent>)
    ensures var events := [Chunk(d)] + tail;
      Stream(events) == d + Stream(tail) && events[1..] == tail
      && (ReadScript(events) <==> d != [] && ReadScript(tail))
      && (NoReadFaults(events) <==> NoReadFaults(tail))
  {
    var events := [Chunk(d)] + tail;
    assert events[1..] == tail;
  }

  lemma ChunkTaken(events: seq<ReadEvent>, r: nat)
    requires ReadScript(events) && events != [] && events[0].Chunk? && 0 < r <= |events[0].data|
    ensures var rest := AfterChunk(events, r);
      Stream(events)[..r] == events[0].data[..r] && Stream(rest) == Stream(events)[r..]
      && ReadScript(rest) && (NoReadFaults(rest) <==> NoReadFaults(events))
      && Weight(rest) < Weight(events)
  {
    var d := events[0].data;
    var tail := events[1..];
    assert events == [Chunk(d)] + tail;
    ChunkFront(d, tail);
    var st := Stream(tail);
    DropPrefix(d, st, r);
    assert (d + st)[..r] == d[..r];
    var rest := AfterChunk(events, r);
    if r < |d| {
      assert rest == [Chunk(d[r..])] + tail;
      ChunkFront(d[r..], tail);
    } else {
      assert rest == tail;
    }
  }

  lemma OtherTaken(events: seq<ReadEvent>)
    requires ReadScript(events) && events != [] && !events[0].Chunk?
    ensures Stream(events[1..]) == Stream(events) && ReadScript(events[1..])
    ensures NoReadFaults(events) <==> events[0].Interrupted? && NoReadFaults(events[1..])
    ensures Weight(events[1..]) < Weight(events)
  {
    assert forall i | 0 <= i < |events| - 1 :: events[1..][i] == events[i + 1];
  }

  /** A file descriptor as the server sees it. */
  class Descriptor {
    /** What read(2) answers next, in order. */
    var input: seq<ReadEvent>
    /** What write(2) answers next, in order. */
    var output: seq<WriteEvent>
    /** Every byte written to the descriptor so far. */
    var sent: string

    ghost predicate Valid()
      reads this
    {
      ReadScript(input) && WriteScript(output)
    }

    constructor (input: seq<ReadEvent>, output: seq<WriteEvent>)
      requires ReadScript(input) && WriteScript(output)
      ensures Valid()
      ensures this.input == input && this.output == output && sent == []
    {
      this.input := input;
      this.output := output;
      sent := [];
    }

    /** read(fd, dst + off, n): returns the number of bytes stored, 0 at end of
        file, or -1 with `eintr` telling EINTR from other errors. */
    method Read(dst: array<char>, off: nat, n: nat) returns (r: int, eintr: bool)
      requires Valid() && 0 < n && off + n <= dst.Length
      modifies this, dst
      ensures Valid() && output == old(output) && sent == old(sent)
      ensures old(input) == [] ==> r == 0 && input == []
      ensures old(input) != [] && old(input[0]).Chunk? ==>
        var d := old(input[0]).data;
        r == Min(n, |d|) && input == AfterChunk(old(input), r)
      ensures old(input) != [] && !old(input[0]).Chunk? ==>
        r == -1 && eintr == old(input[0]).Interrupted? && input == old(input[1..])
      // the same, in terms of the bytes still to come
      ensures -1 <= r <= n && (r == 0 <==> old(input) == [])
      ensures var got := if r > 0 then r else 0;
        got <= |old(Stream(input))| &&
        forall k | 0 <= k < dst.Length :: dst[k] == if off <= k < off + got then old(Stream(input))[k - off] else old(dst[k])
      ensures r >= 0 ==> Stream(input) == old(Stream(input))[r..]
      ensures r < 0 ==> Stream(input) == old(Stream(input))
      ensures r != 0 ==> Weight(input) < old(Weight(input))
      ensures NoReadFaults(old(input)) ==> NoReadFaults(input) && (r >= 0 || eintr)
      ensures r < 0 && !eintr ==> !NoReadFaults(old(input))
      ensures r >= 0 || eintr ==> (NoReadFaults(input) <==> NoReadFaults(old(input)))
    {
      if input == [] {
        r, eintr := 0, false;
        return;
      }
      match input[0] {
        case Chunk(d) =>
          r, eintr := Min(n, |d|), false;
          ChunkTaken(input, r);
          CopyIn(dst, off, d, r);
          input := AfterChunk(input, r);
        case Interrupted =>
          r, eintr := -1, true;
          OtherTaken(input);
          input := input[1..];
        case Failed =>
          r, eintr := -1, false;
          OtherTaken(input);
          input := input[1..];
      }
    }

    /** write(fd, data, |data|): returns how many bytes were accepted, or -1 with
        `eintr` telling EINTR from other errors. */
    method Write(data: string) returns (r: int, eintr: bool)
      requires Valid() && data != []
      modifies this
      ensures Valid() && input == old(input)
      ensures old(output) == [] ==> r == |data| && output == []
      ensures old(output) != [] && old(output[0]).Accepted? ==>
        r == Min(old(output[0]).count, |data|) && output == old(output[1..])
      ensures old(output) != [] && !old(output[0]).Accepted? ==>
        r == -1 && eintr == old(output[0]).WriteInterrupted? && output == old(output[1..])
      ensures r == -1 || 0 < r <= |data|
      ensures sent == old(sent) + data[..if r > 0 then r else 0]
      ensures NoWriteFaults(old(output)) ==> NoWriteFaults(output)
      ensures r < 0 && !eintr ==> !NoWriteFaults(old(output))
      ensures |output| < |old(output)| || r == |data|
    {
      if output == [] {
        r, eintr := |data|, false;
      } else {
        var e := output[0];
        assert forall i | 0 <= i < |output| - 1 :: output[1..][i] == output[i + 1];
        output := output[1..];
        match e {
          case Accepted(k) =>
            r, eintr := Min(k, |data|), false;
          case WriteInterrupted =>
            r, eintr := -1, true;
          case WriteFailed =>
            r, eintr := -1, false;
        }
      }
      sent := sent + data[..if r > 0 then r else 0];
    }
  }

  /** dst[i] = c */
  method Store(dst: array<char>, i: nat, c: char)
    requires i < dst.Length
    modifies dst
    ensures forall k | 0 <= k < dst.Length :: dst[k] == if k == i then c else old(dst[k])
  {
    dst[i] := c;
  }

  /** The NUL rio_readlineb stores after the `k` bytes of a line. */
  method Terminate(dst: array<char>, k: nat, ghost s: string, ghost o: string)
    requires k < dst.Length && Filled(dst, s, o, k)
    modifies dst
    ensures Filled(dst, s[..k] + ['\0'], o, k + 1)
  {
    dst[k] := '\0';
  }

  /** Stores the first `count` bytes of `src` at dst[off..]. */
  method CopyIn(dst: array<char>, off: nat, src: string, count: nat)
    requires off + count <= dst.Length && count <= |src|
    modifies dst
    ensures forall k | 0 <= k < dst.Length :: dst[k] == if off <= k < off + count then src[k - off] else old(dst[k])
  {
    forall k | 0 <= k < count {
      dst[off + k] := src[k];
    }
  }

  /** memcpy(dst + off, src + from, count) between two distinct arrays. */
  method MemCpy(dst: array<char>, off: nat, src: array<char>, from: nat, count: nat)
    requires dst != src && off + count <= dst.Length && from + count <= src.Length
    modifies dst
    ensures forall k | 0 <= k < dst.Length :: dst[k] == if off <= k < off + count then src[from + k - off] else old(dst[k])
  {
    forall k | 0 <= k < count {
      dst[off + k] := src[from + k];
    }
  }

  // ---------------------------------------------------------------------------
  // rio_readn and rio_writen: unbuffered

  /** `a` holds the first `n` bytes of `s`, then what `o` held there before. */
  ghost predicate Filled(a: array<char>, s: string, o: string, n: nat)
    reads a
  {
    n <= |s| && n <= a.Length == |o| && forall k | 0 <= k < a.Length :: a[k] == if k < n then s[k] else o[k]
  }

  /** One read(2) of rio_readn: `done` bytes of `s` are in `usrbuf` and the rest
      are still in the descriptor. */
  method ReadMore(fd: Descriptor, usrbuf: array<char>, done: nat, nleft: nat, ghost s: string, ghost o: string)
    returns (nread: int, eintr: bool, ghost now: nat)
    requires fd.Valid() && 0 < nleft && done + nleft <= usrbuf.Length
    requires Filled(usrbuf, s, o, done) && Stream(fd.input) == s[done..]
    modifies fd, usrbuf
    ensures fd.Valid() && fd.output == old(fd.output) && fd.sent == old(fd.sent)
    ensures -1 <= nread <= nleft && (nread == 0 ==> done == |s|)
    ensures now == if nread > 0 then done + nread else done
    ensures Filled(usrbuf, s, o, now) && Stream(fd.input) == s[now..]
    ensures nread != 0 ==> Weight(fd.input) < old(Weight(fd.input))
    ensures nread < 0 && !eintr ==> !NoReadFaults(old(fd.input))
    ensures NoReadFaults(old(fd.input)) ==> NoReadFaults(fd.input)
  {
    nread, eintr := fd.Read(usrbuf, done, nleft);
    now := if nread > 0 then done + nread else done;
    assert Stream(fd.input) == s[now..] by {
      assert s[done..][now - done..] == s[now..];
    }
    forall k | 0 <= k < usrbuf.Length
      ensures usrbuf[k] == if k < now then s[k] else o[k]
    {
      if done <= k < now {
        assert usrbuf[k] == s[done..][k - done];
      }
    }
  }

  /** rio_readn: reads up to `n` bytes into `usrbuf`, retrying after EINTR; fewer
      only at end of file; -1 on any other error. */
  method ReadN(fd: Descriptor, usrbuf: array<char>, n: nat) returns (r: int)
    requires fd.Valid() && n <= usrbuf.Length
    modifies fd, usrbuf
    ensures fd.Valid() && fd.output == old(fd.output) && fd.sent == old(fd.sent)
    ensures r >= 0 ==>
      var s := old(Stream(fd.input));
      r == Min(n, |s|) && Stream(fd.input) == s[r..] && Filled(usrbuf, s, old(usrbuf[..]), r)
    ensures r < 0 ==> r == -1 && IsSuffix(Stream(fd.input), old(Stream(fd.input)))
    ensures NoReadFaults(old(fd.input)) ==> r >= 0
  {
    ghost var s := Stream(fd.input);
    ghost var o := usrbuf[..];
    var nleft := n;
    ghost var done: nat := 0;
    while nleft > 0
      invariant fd.Valid() && fd.output == old(fd.output) && fd.sent == old(fd.sent)
      invariant 0 <= nleft <= n && done == n - nleft && Filled(usrbuf, s, o, done) && Stream(fd.input) == s[done..]
      invariant NoReadFaults(old(fd.input)) ==> NoReadFaults(fd.input)
      decreases Weight(fd.input)
    {
      var bufp := n - nleft;
      var nread, eintr;
      ghost var now;
      nread, eintr, now := ReadMore(fd, usrbuf, bufp, nleft, s, o);
      if nread < 0 {
        if !eintr {
          SuffixFrom(s, done);
          return -1;
        }
        nread := 0;
      } else if nread == 0 {
        break;
      }
      nleft := nleft - nread;
      done := now;
    }
    r := n - nleft;
  }

  /** rio_writen: writes all `n` bytes of `usrbuf`, retrying after EINTR and after
      short writes; -1 on any other error, after a strict prefix was written. */
  method WriteN(fd: Descriptor, usrbuf: string, n: nat) returns (r: int)
    requires fd.Valid() && n <= |usrbuf|
    modifies fd
    ensures fd.Valid() && fd.input == old(fd.input)
    ensures r == n || r == -1
    ensures r == n ==> fd.sent == old(fd.sent) + usrbuf[..n]
    ensures r == -1 ==> exists k | 0 <= k < n :: fd.sent == old(fd.sent) + usrbuf[..k]
    ensures NoWriteFaults(old(fd.output)) ==> r == n && NoWriteFaults(fd.output)
  {
    var nleft := n;
    while nleft > 0
      invariant fd.Valid() && fd.input == old(fd.input)
      invariant 0 <= nleft <= n && fd.sent == old(fd.sent) + usrbuf[..n - nleft]
      invariant NoWriteFaults(old(fd.output)) ==> NoWriteFaults(fd.output)
      decreases |fd.output|, nleft
    {
      var bufp := n - nleft;
      var nwritten, eintr := fd.Write(usrbuf[bufp..n]);
      if nwritten <= 0 {
        if eintr {
          continue;
        }
        return -1;
      }
      nleft := nleft - nwritten;
      assert usrbuf[..n - nleft] == usrbuf[..bufp] + usrbuf[bufp..n][..nwritten];
    }
    r := n;
  }

  // ---------------------------------------------------------------------------
  // Lines

  /** How many bytes rio_readlineb takes from `s` when it may store `room` of
      them: up to and including the first newline, at most `room`. */
  function LineLength(s: string, room: nat): (k: nat)
    ensures LineEnds(s, room, k)
  {
    if s == [] || room == 0 then 0
    else if s[0] == '\n' then 1
    else
      var j := LineLength(s[1..], room - 1);
      if j > 0 then NoNewlineCons(s, j - 1); 1 + j else 1 + j
  }

  /** None of the first `k` bytes of `s` is a newline. */
  predicate NoNewline(s: string, k: nat)
    requires k <= |s|
  {
    k == 0 || (s[k - 1] != '\n' && NoNewline(s, k - 1))
  }

  lemma {:induction false} NoNewlineCons(s: string, k: nat)
    requires k < |s|
    ensures NoNewline(s, k + 1) <==> s[0] != '\n' && NoNewline(s[1..], k)
  {
    if k > 0 {
      NoNewlineCons(s, k - 1);
    }
  }

  lemma {:induction false} NoNewlineAt(s: string, k: nat, i: nat)
    requires k <= |s|
    ensures i < k && NoNewline(s, k) ==> s[i] != '\n'
  {
    if i < k - 1 {
      NoNewlineAt(s, k - 1, i);
    }
  }

  lemma {:induction false} NoNewlineIn(s: string, k: nat)
    requires k <= |s|
    ensures NoNewline(s, k) <==> '\n' !in s[..k]
  {
    if k > 0 {
      NoNewlineIn(s, k - 1);
      assert s[..k] == s[..k - 1] + [s[k - 1]];
    }
  }

  /** The room rio_readlineb leaves for the line in a buffer of `maxlen` bytes:
      one byte goes to the NUL. */
  function Room(maxlen: nat): nat {
    if maxlen > 0 then maxlen - 1 else 0
  }

  /** `k` bytes of `s` make a line for a limit of `room` bytes: nothing when `s` is
      empty or there is no room, otherwise up to and including the first newline,
      cut short by the limit or by the end of `s`. */
  predicate LineEnds(s: string, room: nat, k: nat) {
    k <= |s| && k <= room
    && (k == 0 <==> s == [] || room == 0)
    && (k > 0 ==> NoNewline(s, k - 1) && (s[k - 1] == '\n' || k == room || k == |s|))
  }

  /** The characterisation of LineLength pins it down. */
  lemma LineLengthIs(s: string, room: nat, k: nat)
    requires LineEnds(s, room, k)
    ensures LineLength(s, room) == k
  {
    var j := LineLength(s, room);
    if j > 0 && k > 0 {
      NoNewlineAt(s, k - 1, j - 1);
      NoNewlineAt(s, j - 1, k - 1);
    }
  }

  /** The lines successive rio_readlineb calls with the same limit deliver. */
  function Lines(s: string, room: nat): seq<string>
    requires room > 0
    decreases |s|
  {
    if s == [] then [] else
    var k := LineLength(s, room);
    [s[..k]] + Lines(s[k..], room)
  }

  function Concat(lines: seq<string>): string {
    if lines == [] then [] else lines[0] + Concat(lines[1..])
  }

  lemma LinesStep(s: string, room: nat)
    requires room > 0 && s != []
    ensures var k := LineLength(s, room); 0 < k <= |s| && Lines(s, room) == [s[..k]] + Lines(s[k..], room)
  {
  }

  lemma ConcatCons(x: string, lines: seq<string>)
    ensures Concat([x] + lines) == x + Concat(lines)
  {
    assert ([x] + lines)[1..] == lines;
  }

  /** Reading a stream line by line and joining the lines gives the stream back. */
  lemma {:induction false} LinesConcat(s: string, room: nat)
    requires room > 0
    ensures Concat(Lines(s, room)) == s
    decreases |s|
  {
    if s != [] {
      var k := LineLength(s, room);
      LinesStep(s, room);
      LinesConcat(s[k..], room);
      ConcatCons(s[..k], Lines(s[k..], room));
      assert s[..k] + s[k..] == s;
    }
  }

  /** Each line is non-empty, fits the limit, and only its last byte can be a newline. */
  lemma {:induction false} LinesShape(s: string, room: nat)
    requires room > 0
    ensures forall i | 0 <= i < |Lines(s, room)| ::
      var l := Lines(s, room)[i]; 0 < |l| <= room && '\n' !in l[..|l| - 1]
    decreases |s|
  {
    if s != [] {
      var k := LineLength(s, room);
      LinesStep(s, room);
      LinesShape(s[k..], room);
      NoNewlineIn(s, k - 1);
      assert s[..k][..k - 1] == s[..k - 1];
      assert Lines(s, room)[1..] == Lines(s[k..], room);
    }
  }

  // ---------------------------------------------------------------------------
  // The buffered reader

  /** rio_t: a descriptor, an internal buffer, a cursor and an unread count. */
  class RioBuffer {
    /** rio_fd */
    const fd: Descriptor
    /** rio_buf */
    const buf: array<char>
    /** rio_cnt: the number of unread bytes in buf; -1 after a failed refill */
    var cnt: int
    /** rio_bufptr, as an index into buf */
    var bufptr: nat

    /** Every byte still to be handed out, in order: the unread buffered bytes,
        then what the descriptor will deliver. */
    ghost var pending: string

    ghost predicate Valid()
      reads this, fd, buf
    {
      buf.Length == RIO_BUFSIZE && bufptr <= RIO_BUFSIZE && -1 <= cnt <= RIO_BUFSIZE - bufptr
      && fd.Valid() && pending == Unread() + Stream(fd.input)
    }

    /** The bytes read from the descriptor but not yet handed out. */
    ghost function Unread(): string
      requires buf.Length == RIO_BUFSIZE && bufptr <= RIO_BUFSIZE && -1 <= cnt <= RIO_BUFSIZE - bufptr
      reads this, buf
    {
      if cnt <= 0 then [] else buf[bufptr..bufptr + cnt]
    }

    /** rio_readinitb: ties a fresh, empty buffer to `fd`. */
    constructor (fd: Descriptor)
      requires fd.Valid()
      ensures Valid() && fresh(buf)
      ensures this.fd == fd && cnt == 0 && bufptr == 0
      ensures pending == Stream(fd.input)
    {
      this.fd := fd;
      buf := new char[RIO_BUFSIZE];
      cnt := 0;
      bufptr := 0;
      pending := Stream(fd.input);
    }

    /** The refill loop at the top of rio_read: while the buffer is empty, read up to
        RIO_BUFSIZE bytes into it, retrying after EINTR. Returns a positive count once
        bytes are buffered, 0 at end of file and -1 on any other read error; no byte
        still to be handed out is lost or reordered. */
    method Refill() returns (status: int)
      requires Valid()
      modifies this, buf, fd
      ensures Valid() && fd.output == old(fd.output) && fd.sent == old(fd.sent)
      ensures pending == old(pending)
      ensures status > 0 <==> cnt > 0
      ensures old(cnt) > 0 ==> cnt == old(cnt) && bufptr == old(bufptr) && fd.input == old(fd.input)
      ensures status == 0 ==> old(pending) == []
      ensures NoReadFaults(old(fd.input)) ==> NoReadFaults(fd.input) && status >= 0
      ensures status < 0 ==> status == -1 && !NoReadFaults(old(fd.input))
    {
      status := 1;
      while cnt <= 0
        invariant Valid() && fd.output == old(fd.output) && fd.sent == old(fd.sent)
        invariant pending == old(pending)
        invariant old(cnt) > 0 ==> cnt == old(cnt) && bufptr == old(bufptr) && fd.input == old(fd.input)
        invariant NoReadFaults(old(fd.input)) ==> NoReadFaults(fd.input)
        decreases Weight(fd.input)
      {
        var eintr := ReadBuf();
        if cnt < 0 {
          if !eintr {
            return -1;
          }
        } else if cnt == 0 {
          return 0;
        }
      }
    }

    /** One round of the refill loop: rio_cnt = read(rio_fd, rio_buf, sizeof(rio_buf)),
        and the cursor back to the start of the buffer when bytes came. */
    method ReadBuf() returns (eintr: bool)
      requires Valid() && cnt <= 0
      modifies this, buf, fd
      ensures Valid() && fd.output == old(fd.output) && fd.sent == old(fd.sent)
      ensures pending == old(pending) && -1 <= cnt
      ensures cnt != 0 ==> Weight(fd.input) < old(Weight(fd.input))
      ensures cnt == 0 ==> old(pending) == []
      ensures NoReadFaults(old(fd.input)) ==> NoReadFaults(fd.input) && (cnt >= 0 || eintr)
      ensures cnt < 0 && !eintr ==> !NoReadFaults(old(fd.input))
    {
      ghost var st := Stream(fd.input);
      var got;
      got, eintr := fd.Read(buf, 0, RIO_BUFSIZE);
      cnt := got;
      if cnt > 0 {
        bufptr := 0;
        forall k | 0 <= k < cnt
          ensures buf[k] == st[k]
        {
        }
        Refilled(st);
      }
    }

    /** After a read of `cnt` bytes of `st` into the empty buffer, the buffer and the
        descriptor still hold `st` between them. */
    lemma Refilled(st: string)
      requires buf.Length == RIO_BUFSIZE && bufptr == 0 && 0 < cnt <= RIO_BUFSIZE && cnt <= |st|
      requires forall k | 0 <= k < cnt :: buf[k] == st[k]
      requires Stream(fd.input) == st[cnt..]
      ensures Unread() + Stream(fd.input) == st
    {
      assert Unread() == st[..cnt];
    }

    /** rio_read: refills the buffer when it is empty, then hands out min(n, cnt)
        bytes from the cursor. Returns 0 at end of file and -1 on any other read error. */
    method Read(usrbuf: array<char>, off: nat, n: nat) returns (r: int)
      requires Valid() && usrbuf != buf && off + n <= usrbuf.Length
      modifies this, buf, fd, usrbuf
      ensures Valid() && fd.output == old(fd.output) && fd.sent == old(fd.sent)
      ensures -1 <= r <= n && r <= |old(pending)|
      ensures pending == old(pending)[if r > 0 then r else 0..]
      ensures var got := if r > 0 then r else 0;
        forall k | 0 <= k < usrbuf.Length :: usrbuf[k] == if off <= k < off + got then old(pending)[k - off] else old(usrbuf[k])
      // no refill while bytes are buffered: min(n, cnt) of them are handed out
      ensures old(cnt) > 0 ==> r == Min(n, old(cnt)) && fd.input == old(fd.input)
      // after a refill, min(n, cnt) as well: fewer than n only when the buffer is drained
      ensures r > 0 ==> r == n || cnt == 0
      ensures n > 0 && r == 0 ==> old(pending) == []
      ensures NoReadFaults(old(fd.input)) ==> NoReadFaults(fd.input) && r >= 0
    {
      var status := Refill();
      if status <= 0 {
        return status;
      }
      r := Take(usrbuf, off, n);
    }

    /** The copy at the end of rio_read: hands out min(n, cnt) buffered bytes
        and advances the cursor past them. */
    method Take(usrbuf: array<char>, off: nat, n: nat) returns (r: nat)
      requires Valid() && usrbuf != buf && off + n <= usrbuf.Length && cnt > 0
      modifies this, usrbuf
      ensures Valid() && r == Min(n, old(cnt)) && cnt == old(cnt) - r
      ensures pending == old(pending)[r..]
      ensures forall k | 0 <= k < usrbuf.Length :: usrbuf[k] == if off <= k < off + r then old(pending)[k - off] else old(usrbuf[k])
    {
      r := if cnt < n then cnt else n;
      ghost var u := Unread();
      ghost var st := Stream(fd.input);
      ghost var p := pending;
      MemCpy(usrbuf, off, buf, bufptr, r);
      forall k | off <= k < off + r
        ensures usrbuf[k] == p[k - off]
      {
        assert p[k - off] == u[k - off];
      }
      bufptr := bufptr + r;
      cnt := cnt - r;
      pending := pending[r..];
      assert Unread() == u[r..];
      DropPrefix(u, st, r);
    }

    /** One rio_read of rio_readnb: `done` bytes of `p` are in `usrbuf` and the
        rest are still to be handed out. */
    method ReadMore(usrbuf: array<char>, done: nat, nleft: nat, ghost p: string, ghost o: string) returns (nread: int)
      requires Valid() && usrbuf != buf && 0 < nleft && done + nleft <= usrbuf.Length
      requires Filled(usrbuf, p, o, done) && pending == p[done..]
      modifies this, buf, fd, usrbuf
      ensures Valid() && fd.output == old(fd.output) && fd.sent == old(fd.sent)
      ensures -1 <= nread <= nleft && (nread == 0 ==> done == |p|)
      ensures var now := if nread > 0 then done + nread else done;
        Filled(usrbuf, p, o, now) && pending == p[now..]
      ensures NoReadFaults(old(fd.input)) ==> NoReadFaults(fd.input) && nread >= 0
    {
      nread := Read(usrbuf, done, nleft);
      ghost var now := if nread > 0 then done + nread else done;
      assert pending == p[now..] by {
        assert p[done..][now - done..] == p[now..];
      }
      forall k | 0 <= k < usrbuf.Length
        ensures usrbuf[k] == if k < now then p[k] else o[k]
      {
        if done <= k < now {
          assert usrbuf[k] == p[done..][k - done];
        }
      }
    }

    /** rio_readnb: reads up to `n` bytes through the buffer; fewer only at end
        of file; -1 on a read error. */
    method ReadNB(usrbuf: array<char>, n: nat) returns (r: int)
      requires Valid() && usrbuf != buf && n <= usrbuf.Length
      modifies this, buf, fd, usrbuf
      ensures Valid() && fd.output == old(fd.output) && fd.sent == old(fd.sent)
      ensures r >= 0 ==>
        var p := old(pending);
        r == Min(n, |p|) && pending == p[r..] && Filled(usrbuf, p, old(usrbuf[..]), r)
      ensures r < 0 ==> r == -1 && IsSuffix(pending, old(pending))
      ensures NoReadFaults(old(fd.input)) ==> r >= 0
    {
      ghost var p := pending;
      ghost var o := usrbuf[..];
      var nleft := n;
      ghost var done: nat := 0;
      while nleft > 0
        invariant Valid() && fd.output == old(fd.output) && fd.sent == old(fd.sent)
        invariant 0 <= nleft <= n && done == n - nleft && Filled(usrbuf, p, o, done) && pending == p[done..]
        invariant NoReadFaults(old(fd.input)) ==> NoReadFaults(fd.input)
      {
        var bufp := n - nleft;
        var nread := ReadMore(usrbuf, bufp, nleft, p, o);
        if nread < 0 {
          SuffixFrom(p, done);
          return -1;
        } else if nread == 0 {
          break;
        }
        nleft := nleft - nread;
        done := bufp + nread;
      }
      r := n - nleft;
    }

    /** rio_readlineb: reads one line of at most maxlen - 1 bytes, newline included,
        and NUL-terminates it; returns the number of bytes stored. Returns 0 without
        storing anything when end of file comes first, and -1 on a read error. */
    method ReadLineB(usrbuf: array<char>, maxlen: nat) returns (r: int)
      requires Valid() && usrbuf != buf && 1 <= usrbuf.Length && maxlen <= usrbuf.Length
      modifies this, buf, fd, usrbuf
      ensures Valid() && fd.output == old(fd.output) && fd.sent == old(fd.sent)
      ensures r >= 0 ==>
        r == LineLength(old(pending), Room(maxlen)) && pending == old(pending)[r..]
      ensures r > 0 || (r == 0 && maxlen <= 1) ==> Filled(usrbuf, old(pending)[..r] + ['\0'], old(usrbuf[..]), r + 1)
      ensures r == 0 && maxlen > 1 ==> usrbuf[..] == old(usrbuf[..])
      ensures r < 0 ==> r == -1 && IsSuffix(pending, old(pending))
      ensures NoReadFaults(old(fd.input)) ==> r >= 0 && NoReadFaults(fd.input)
    {
      ghost var p := pending;
      ghost var o := usrbuf[..];
      var status, k := CopyLine(usrbuf, maxlen, p, o);
      if status < 0 {
        return -1;
      }
      LineLengthIs(p, Room(maxlen), k);
      if status == 0 {
        assert usrbuf[..] == o;
        return 0;
      }
      Terminate(usrbuf, k, p, o);
      r := k;
    }

    /** How the for-loop of rio_readlineb left the line: `k` bytes of `p` stored over
        `o`, and a status that is 0 when end of file came before any byte, -1 on a
        read error, and 1 otherwise, with the line then cut as LineEnds says. */
    ghost predicate LineDone(usrbuf: array<char>, maxlen: nat, p: string, o: string, status: int, k: nat)
      reads this, usrbuf
    {
      -1 <= status <= 1 && k < usrbuf.Length && Filled(usrbuf, p, o, k)
      && (status >= 0 ==> LineEnds(p, Room(maxlen), k) && pending == p[k..])
      && (status == 0 ==> k == 0 && maxlen > 1 && p == [])
      && (status == 1 ==> k > 0 || maxlen <= 1)
      && (status < 0 ==> status == -1 && IsSuffix(pending, p))
    }

    /** The for-loop of rio_readlineb: stores bytes up to and including the first
        newline, at most maxlen - 1 of them, and says how many it stored. */
    method CopyLine(usrbuf: array<char>, maxlen: nat, ghost p: string, ghost o: string) returns (status: int, k: nat)
      requires Valid() && usrbuf != buf && 1 <= usrbuf.Length && maxlen <= usrbuf.Length
      requires pending == p && Filled(usrbuf, p, o, 0)
      modifies this, buf, fd, usrbuf
      ensures Valid() && fd.output == old(fd.output) && fd.sent == old(fd.sent)
      ensures LineDone(usrbuf, maxlen, p, o, status, k)
      ensures NoReadFaults(old(fd.input)) ==> status >= 0 && NoReadFaults(fd.input)
    {
      var n := 1;
      var stored := 0;   // bufp - usrbuf
      while n < maxlen
        invariant Valid() && fd.output == old(fd.output) && fd.sent == old(fd.sent)
        invariant n == stored + 1 && (n <= maxlen || n == 1) && stored <= |p| && pending == p[stored..]
        invariant NoNewline(p, stored) && Filled(usrbuf, p, o, stored)
        invariant NoReadFaults(old(fd.input)) ==> NoReadFaults(fd.input)
      {
        var done;
        done, status, k := LineStep(usrbuf, stored, n, maxlen, p, o);
        if done {
          return;
        }
        stored := n;
        n := n + 1;
      }
      assert LineEnds(p, Room(maxlen), stored);
      status, k := 1, n - 1;
    }

    /** One round of the for-loop of rio_readlineb: a newline ends the line, end of
        file or a read error ends the loop, and any other byte extends the line
        (`done` is false). */
    method LineStep(usrbuf: array<char>, stored: nat, n: nat, maxlen: nat, ghost p: string, ghost o: string)
      returns (done: bool, status: int, k: nat)
      requires Valid() && usrbuf != buf && n == stored + 1 && n < maxlen <= usrbuf.Length
      requires stored <= |p| && pending == p[stored..] && NoNewline(p, stored) && Filled(usrbuf, p, o, stored)
      modifies this, buf, fd, usrbuf
      ensures Valid() && fd.output == old(fd.output) && fd.sent == old(fd.sent)
      ensures NoReadFaults(old(fd.input)) ==> NoReadFaults(fd.input) && status >= 0
      ensures !done ==> n <= |p| && pending == p[n..] && NoNewline(p, n) && Filled(usrbuf, p, o, n)
      ensures done ==> LineDone(usrbuf, maxlen, p, o, status, k)
    {
      var rc, c := ReadInto(usrbuf, stored, n, p, o);
      if rc < 0 {
        SuffixFrom(p, stored);
        return true, -1, stored;
      } else if rc == 0 {
        if n == 1 {
          return true, 0, 0;
        }
        return true, 1, stored;
      } else if c == '\n' {
        return true, 1, n;
      }
      done, status, k := false, 1, n;
    }

    /** One round of rio_readlineb: rio_read(rp, &c, 1), then storing `c` at
        usrbuf[i] when a byte came; the first `i` bytes of `p` are already stored. */
    method ReadInto(usrbuf: array<char>, i: nat, j: nat, ghost p: string, ghost o: string) returns (rc: int, c: char)
      requires Valid() && usrbuf != buf && i < usrbuf.Length && j == i + 1
      requires Filled(usrbuf, p, o, i) && pending == p[i..]
      modifies this, buf, fd, usrbuf
      ensures Valid() && fd.output == old(fd.output) && fd.sent == old(fd.sent)
      ensures -1 <= rc <= 1
      ensures rc == 1 ==> j <= |p| && c == p[i] && pending == p[j..] && Filled(usrbuf, p, o, j)
      ensures rc == 0 ==> i == |p| && pending == [] && Filled(usrbuf, p, o, i)
      ensures rc < 0 ==> pending == p[i..] && Filled(usrbuf, p, o, i)
      ensures NoReadFaults(old(fd.input)) ==> NoReadFaults(fd.input) && rc >= 0
    {
      rc, c := ReadChar();
      if rc == 1 {
        Store(usrbuf, i, c);
        assert p[i..][1..] == p[j..];
      }
    }

    /** rio_read(rp, &c, 1), the one-byte read rio_readlineb makes. */
    method ReadChar() returns (rc: int, c: char)
      requires Valid()
      modifies this, buf, fd
      ensures Valid() && fd.output == old(fd.output) && fd.sent == old(fd.sent)
      ensures -1 <= rc <= 1
      ensures rc == 1 ==> old(pending) != [] && c == old(pending)[0] && pending == old(pending)[1..]
      ensures rc == 0 ==> old(pending) == [] && pending == []
      ensures rc < 0 ==> pending == old(pending)
      ensures NoReadFaults(old(fd.input)) ==> NoReadFaults(fd.input) && rc >= 0
    {
      var one := new char[1];
      rc := Read(one, 0, 1);
      c := one[0];
    }
  }
}
