/**
 * The parts of attached_sever.c that work step by step on the connection:
 * read_requesthdrs and the POST header loop read the head line by line
 * through the rio buffer, and serve_static and clienterror write the response
 * piece by piece with Rio_writen. Each is proved against the function of the
 * bytes involved that Http and Doit define.
 */
module Server {
  import opened Wrappers
  import opened CText
  import opened Framing
  import opened Rio
  import opened Http
  import Doit

  // ---------------------------------------------------------------------------
  // The csapp wrappers

  /** Rio_writen: rio_writen of the whole piece. A short count makes unix_error
      exit the process; `wrote` is how much of the piece went out, all of it
      exactly when `ok`. */
  method Send(fd: Descriptor, piece: string) returns (ok: bool, ghost wrote: nat)
    requires fd.Valid()
    modifies fd
    ensures fd.Valid() && fd.input == old(fd.input)
    ensures wrote <= |piece| && fd.sent == old(fd.sent) + piece[..wrote]
    ensures ok <==> wrote == |piece|
    ensures NoWriteFaults(old(fd.output)) ==> ok && NoWriteFaults(fd.output)
  {
    var r := WriteN(fd, piece, |piece|);
    ok := r == |piece|;
    if ok {
      wrote := |piece|;
    } else {
      wrote :| 0 <= wrote < |piece| && fd.sent == old(fd.sent) + piece[..wrote];
    }
  }

  /** Writing the part of `piece` that went out extends what was sent of a text
      whose bytes from `n` on are that piece. */
  lemma Progress(before: string, whole: string, n: nat, piece: string, w: nat)
    requires n + |piece| <= |whole| && whole[n..n + |piece|] == piece && w <= |piece|
    ensures (before + whole[..n]) + piece[..w] == before + whole[..n + w]
  {
    assert whole[..n + w] == whole[..n] + piece[..w];
  }

  /** Rio_writen of the piece of `whole` that lies between `n` and `m`, after the
      first `n` bytes of `whole` went out: `wrote` is how far into `whole` the
      bytes sent now reach, `m` exactly when `ok`. */
  method SendAt(fd: Descriptor, piece: string, ghost before: string, ghost whole: string, ghost n: nat, ghost m: nat)
    returns (ok: bool, ghost wrote: nat)
    requires fd.Valid() && n <= m <= |whole| && m == n + |piece| && whole[n..m] == piece
    requires fd.sent == before + whole[..n]
    modifies fd
    ensures fd.Valid() && fd.input == old(fd.input)
    ensures n <= wrote <= m && fd.sent == before + whole[..wrote]
    ensures ok <==> wrote == m
    ensures NoWriteFaults(old(fd.output)) ==> ok && NoWriteFaults(fd.output)
  {
    ghost var w;
    ok, w := Send(fd, piece);
    Progress(before, whole, n, piece, w);
    wrote := n + w;
  }

  /** A text cut into three pieces at `a` and `b`. */
  lemma Pieces3(w: string, x1: string, x2: string, x3: string, a: nat, b: nat, c: nat)
    requires w == x1 + x2 + x3 && a == |x1| && b == a + |x2| && c == b + |x3|
    ensures c == |w| && w[0..a] == x1 && w[a..b] == x2 && w[b..c] == x3
  {
    assert w[0..a] == (x1 + x2)[0..a];
    assert w[a..b] == (x1 + x2)[a..b];
  }

  /** A text cut into five pieces. */
  lemma Pieces5(w: string, x1: string, x2: string, x3: string, x4: string, x5: string,
                a: nat, b: nat, c: nat, d: nat, e: nat)
    requires w == x1 + x2 + x3 + x4 + x5
    requires a == |x1| && b == a + |x2| && c == b + |x3| && d == c + |x4| && e == d + |x5|
    ensures e == |w| && w[0..a] == x1 && w[a..b] == x2 && w[b..c] == x3 && w[c..d] == x4 && w[d..e] == x5
  {
    var h := x1 + x2 + x3;
    Pieces3(h, x1, x2, x3, a, b, c);
    assert w == h + x4 + x5;
    assert w[0..a] == h[0..a] && w[a..b] == h[a..b] && w[b..c] == h[b..c];
    assert w[c..d] == (h + x4)[c..d];
  }

  /** strcmp(buf, "\r\n") == 0 on a line buffer. */
  method BlankLine(buf: array<char>) returns (b: bool)
    requires buf.Length >= 3
    ensures b <==> IsBlank(buf[..])
  {
    b := buf[0] == '\r' && buf[1] == '\n' && buf[2] == '\0';
    ghost var s := buf[..];
    if b {
      assert s == CRLF + ['\0'] + s[3..];
      CStrCut(CRLF, s[3..]);
      CStrNulFree(CRLF);
    }
  }

  /** After rio_readlineb stored `r` bytes of `q` and a NUL, the C string in the
      buffer is the C string of that line. */
  lemma LineInBuffer(buf: array<char>, q: string, o: string, r: nat)
    requires r <= |q| && Filled(buf, q[..r] + ['\0'], o, r + 1)
    ensures CStr(buf[..]) == CStr(q[..r])
  {
    assert buf[..] == q[..r] + ['\0'] + o[r + 1..];
    CStrCut(q[..r], o[r + 1..]);
  }

  // ---------------------------------------------------------------------------
  // read_requesthdrs

  /** One line of read_requesthdrs: the empty line ends the head, any other
      line leaves the rest of the head to read. */
  lemma SkipHeadersLine(q: string, r: nat, blank: bool)
    requires q != [] && r == LineLength(q, LINE_ROOM) && (blank <==> IsBlank(q[..r]))
    ensures 0 < r <= |q| && SkipHeaders(q) == if blank then Some(r) else Shift(SkipHeaders(q[r..]), r)
  {
  }

  /** The same line, read after the first `c` bytes of the input `p`, whose head
      takes `total` bytes. */
  lemma SkipHeadersNext(p: string, c: nat, r: nat, n: nat, total: Option<nat>, blank: bool)
    requires c < |p| && r == LineLength(p[c..], LINE_ROOM) && n == c + r
    requires blank <==> IsBlank(p[c..][..r])
    requires total == Shift(SkipHeaders(p[c..]), c)
    ensures 0 < r && n <= |p| && p[c..][r..] == p[n..]
    ensures total == if blank then Some(n) else Shift(SkipHeaders(p[n..]), n)
  {
    var q := p[c..];
    SkipHeadersLine(q, r, blank);
    assert q[r..] == p[n..];
    if blank {
      assert total == Shift(Some(r), c);
    } else {
      var x := SkipHeaders(p[n..]);
      assert SkipHeaders(q) == Shift(x, r);
      ShiftTwice(x, r, c, n);
    }
  }

  lemma ShiftTwice(x: Option<nat>, r: nat, c: nat, n: nat)
    requires n == c + r
    ensures Shift(Shift(x, r), c) == Shift(x, n)
  {
  }

  /** Rio_readlineb(rp, buf, MAXLINE) followed by strcmp(buf, "\r\n"): `r` is the
      count rio_readlineb returns and `blank` whether the buffer then holds the
      empty line. */
  method HeadLine(rp: RioBuffer, buf: array<char>) returns (r: int, blank: bool)
    requires rp.Valid() && buf != rp.buf && buf.Length == MAXLINE
    modifies rp, rp.buf, rp.fd, buf
    ensures rp.Valid() && rp.fd.output == old(rp.fd.output) && rp.fd.sent == old(rp.fd.sent)
    ensures NoReadFaults(old(rp.fd.input)) ==> r >= 0 && NoReadFaults(rp.fd.input)
    ensures r < 0 ==> !NoReadFaults(old(rp.fd.input))
    ensures r == 0 ==> old(rp.pending) == [] && rp.pending == [] && buf[..] == old(buf[..]) && !blank
    ensures r > 0 ==>
      old(rp.pending) != [] && r == LineLength(old(rp.pending), LINE_ROOM) && rp.pending == old(rp.pending)[r..]
      && CStr(buf[..]) == CStr(old(rp.pending)[..r]) && (blank <==> IsBlank(buf[..]))
  {
    ghost var q := rp.pending;
    ghost var o := buf[..];
    r := rp.ReadLineB(buf, MAXLINE);
    blank := false;
    if r > 0 {
      LineInBuffer(buf, q, o, r);
      blank := BlankLine(buf);
    }
  }

  /** read_requesthdrs: reads lines of at most MAXLINE - 1 bytes until one is the
      empty line. A read error exits through Rio_readlineb. When the input ends
      first, rio_readlineb leaves the buffer as it was and the loop compares the
      same line forever (Hung); when it ends before the first line, the buffer is
      compared without ever being set (Undefined). `consumed` is how many bytes
      the head took. */
  method ReadRequestHdrs(rp: RioBuffer) returns (end: Doit.End, ghost consumed: nat)
    requires rp.Valid()
    modifies rp, rp.buf, rp.fd
    ensures rp.Valid() && rp.fd.output == old(rp.fd.output) && rp.fd.sent == old(rp.fd.sent)
    ensures end == Doit.Done ==>
      SkipHeaders(old(rp.pending)) == Some(consumed) && rp.pending == old(rp.pending)[consumed..]
    ensures end == Doit.Exited ==> !NoReadFaults(old(rp.fd.input))
    ensures NoReadFaults(old(rp.fd.input)) ==>
      (end == Doit.Done <==> SkipHeaders(old(rp.pending)).Some?)
      && (end == Doit.Undefined <==> old(rp.pending) == [])
      && (end == Doit.Hung <==> old(rp.pending) != [] && SkipHeaders(old(rp.pending)).None?)
  {
    var buf := new char[MAXLINE];
    ghost var p := rp.pending;
    ghost var total := SkipHeaders(p);
    assert p[0..] == p;
    consumed := 0;
    var r, blank := HeadLine(rp, buf);
    if r < 0 {
      return Doit.Exited, 0;
    } else if r == 0 {
      return Doit.Undefined, 0;
    }
    SkipHeadersNext(p, 0, r, r, total, blank);
    consumed := r;
    while !blank
      invariant rp.Valid() && rp.fd.output == old(rp.fd.output) && rp.fd.sent == old(rp.fd.sent)
      invariant 0 < consumed <= |p| && rp.pending == p[consumed..]
      invariant total == if blank then Some(consumed) else Shift(SkipHeaders(p[consumed..]), consumed)
      invariant !blank ==> !IsBlank(buf[..])
      invariant NoReadFaults(old(rp.fd.input)) ==> NoReadFaults(rp.fd.input)
      decreases |rp.pending|
    {
      r, blank := HeadLine(rp, buf);
      if r < 0 {
        return Doit.Exited, consumed;
      } else if r == 0 {
        assert !IsBlank(buf[..]) && rp.pending == [];   // the same line is compared again, forever
        return Doit.Hung, consumed;
      }
      ghost var next := consumed + r;
      SkipHeadersNext(p, consumed, r, next, total, blank);
      consumed := next;
    }
    end := Doit.Done;
  }

  // ---------------------------------------------------------------------------
  // The POST header loop

  /** One line of the POST header loop: the empty line ends the head, any other
      line may set the length and leaves the rest of the head to read. */
  lemma PostHeadersLine(q: string, r: nat, line: string, blank: bool, length: Option<int>, next: Option<int>)
    requires q != [] && r == LineLength(q, LINE_ROOM)
    requires CStr(line) == CStr(q[..r]) && (blank <==> IsBlank(line))
    requires next == if blank then length else LengthFrom(line, length)
    ensures 0 < r <= |q|
    ensures PostHeaders(q, length) == if blank then Some(PostHead(r, length)) else Advance(PostHeaders(q[r..], next), r)
  {
    assert IsBlank(line) <==> IsBlank(q[..r]);
    assert LengthFrom(line, length) == LengthFrom(q[..r], length);
  }

  /** The same line, read after the first `c` bytes of the input `p`, whose head
      ends as `total` says. */
  lemma PostHeadersNext(p: string, c: nat, r: nat, n: nat, line: string, blank: bool, length: Option<int>, next: Option<int>,
                        total: Option<PostHead>)
    requires c < |p| && r == LineLength(p[c..], LINE_ROOM) && n == c + r
    requires CStr(line) == CStr(p[c..][..r]) && (blank <==> IsBlank(line))
    requires next == if blank then length else LengthFrom(line, length)
    requires total == Advance(PostHeaders(p[c..], length), c)
    ensures 0 < r && n <= |p| && p[c..][r..] == p[n..]
    ensures total == if blank then Some(PostHead(n, length)) else Advance(PostHeaders(p[n..], next), n)
  {
    var q := p[c..];
    PostHeadersLine(q, r, line, blank, length, next);
    assert q[r..] == p[n..];
    if blank {
      assert total == Advance(Some(PostHead(r, length)), c);
    } else {
      var x := PostHeaders(p[n..], next);
      assert PostHeaders(q, length) == Advance(x, r);
      AdvanceTwice(x, r, c, n);
    }
  }

  lemma AdvanceTwice(x: Option<PostHead>, r: nat, c: nat, n: nat)
    requires n == c + r
    ensures Advance(Advance(x, r), c) == Advance(x, n)
  {
  }

  /** The header loop of the POST branch (attached_sever.c:99-112) on doit's line
      buffer, which still holds the request line: reads lines until the empty
      one and keeps the length the last "Content-Length: " line gave, atoi of the
      text two bytes after that line's first colon. `length` is None when no line
      set it. At end of input the buffer keeps a line that is not empty and the
      loop spins (Hung); a read error exits. */
  method ReadPostHeaders(rp: RioBuffer, buf: array<char>) returns (end: Doit.End, length: Option<int>, ghost consumed: nat)
    requires rp.Valid() && buf != rp.buf && buf.Length == MAXLINE
    requires !IsBlank(buf[..])
    modifies rp, rp.buf, rp.fd, buf
    ensures rp.Valid() && rp.fd.output == old(rp.fd.output) && rp.fd.sent == old(rp.fd.sent)
    ensures end == Doit.Done ==>
      PostHeaders(old(rp.pending), None) == Some(PostHead(consumed, length)) && rp.pending == old(rp.pending)[consumed..]
    ensures end == Doit.Exited ==> !NoReadFaults(old(rp.fd.input))
    ensures NoReadFaults(old(rp.fd.input)) ==>
      (end == Doit.Done <==> PostHeaders(old(rp.pending), None).Some?)
      && (end != Doit.Done ==> end == Doit.Hung)
  {
    ghost var p := rp.pending;
    ghost var total := PostHeaders(p, None);
    assert p[0..] == p;
    length := None;
    consumed := 0;
    var blank := false;
    while !blank
      invariant rp.Valid() && rp.fd.output == old(rp.fd.output) && rp.fd.sent == old(rp.fd.sent)
      invariant consumed <= |p| && rp.pending == p[consumed..]
      invariant blank ==> consumed > 0
      invariant total ==
        if blank then Some(PostHead(consumed, length)) else Advance(PostHeaders(p[consumed..], length), consumed)
      invariant !blank ==> !IsBlank(buf[..])
      invariant NoReadFaults(old(rp.fd.input)) ==> NoReadFaults(rp.fd.input)
      decreases |rp.pending|
    {
      var r;
      r, blank := HeadLine(rp, buf);
      if r < 0 {
        return Doit.Exited, length, consumed;
      } else if r == 0 {
        assert !IsBlank(buf[..]) && rp.pending == [];   // the same line is compared again, forever
        return Doit.Hung, length, consumed;
      }
      ghost var before := length;
      if !blank {
        var t := CStr(buf[..]);
        if Contains(t, LENGTH_HEADER) {
          ColonBefore(t);
          length := Some(Atoi(t[IndexOf(t, ':').value + 2..]));
        }
      }
      ghost var next := consumed + r;
      PostHeadersNext(p, consumed, r, next, buf[..], blank, before, length, total);
      consumed := next;
    }
    end := Doit.Done;
  }

  // ---------------------------------------------------------------------------
  // Writing responses

  /** The three pieces clienterror writes make its page, and the first two its head. */
  lemma ErrorPieces(cause: string, errnum: string, shortmsg: string, longmsg: string,
                    status: string, kind: string, body: string)
    requires status == StatusLine(errnum, shortmsg) + CRLF && kind == HTML_TYPE_LINE + CRLF + CRLF
    requires body == ErrorBody(cause, errnum, shortmsg, longmsg)
    ensures ErrorPage(cause, errnum, shortmsg, longmsg) == status + kind + body
    ensures ErrorHead(errnum, shortmsg) == status + kind
  {
    Regroup3(StatusLine(errnum, shortmsg), CRLF, HTML_TYPE_LINE, CRLF, CRLF, body);
  }

  lemma Regroup3(x1: string, x2: string, x3: string, x4: string, x5: string, x6: string)
    ensures x1 + x2 + x3 + x4 + x5 + x6 == (x1 + x2) + (x3 + x4 + x5) + x6
  {
  }

  /** clienterror: the status line, the type line with the empty line, then the
      page, each with Rio_writen; of the page, only the lines that carry the
      arguments are modelled. The page is formatted after the head went out, and
      one that does not fit buf runs past it. A failed write exits; `wrote` is how
      much of what Doit.ClientError describes went out: all of it, or a strict
      prefix when a write failed. */
  method ClientError(fd: Descriptor, cause: string, errnum: string, shortmsg: string, longmsg: string)
    returns (end: Doit.End, ghost wrote: nat)
    requires fd.Valid()
    modifies fd
    ensures fd.Valid() && fd.input == old(fd.input)
    ensures var spec := Doit.ClientError(cause, errnum, shortmsg, longmsg);
      wrote <= |spec.out| && fd.sent == old(fd.sent) + spec.out[..wrote]
      && (wrote == |spec.out| ==> end == spec.end)
      && (wrote < |spec.out| ==> end == Doit.Exited && !NoWriteFaults(old(fd.output)))
  {
    ghost var spec := Doit.ClientError(cause, errnum, shortmsg, longmsg);
    ghost var page := ErrorPage(cause, errnum, shortmsg, longmsg);
    ghost var before := fd.sent;
    var status := StatusLine(errnum, shortmsg) + CRLF;
    var kind := HTML_TYPE_LINE + CRLF + CRLF;
    var body := ErrorBody(cause, errnum, shortmsg, longmsg);
    ghost var a, b, c := |status|, |status| + |kind|, |status| + |kind| + |body|;
    ErrorPieces(cause, errnum, shortmsg, longmsg, status, kind, body);
    Pieces3(page, status, kind, body, a, b, c);
    assert spec.out == page[..b] || spec.out == page;
    assert fd.sent == before + page[..0];
    end := Doit.Exited;
    var ok;
    ok, wrote := SendAt(fd, status, before, page, 0, a);
    if !ok {
      assert page[..wrote] == spec.out[..wrote];
      return;
    }
    ok, wrote := SendAt(fd, kind, before, page, a, b);
    if !ok {
      assert page[..wrote] == spec.out[..wrote];
      return;
    }
    if !PageFits(cause, errnum, shortmsg, longmsg) {
      end := Doit.Undefined;   // sprintf writes past buf
      return;
    }
    ok, wrote := SendAt(fd, body, before, page, b, c);
    if !ok {
      return;
    }
    end := Doit.Done;
  }

  /** The pieces serve_static writes make the response Doit.ServeStatic describes:
      the four head lines, then the file when Open and Mmap succeed. */
  lemma StaticPieces(filename: string, info: Doit.FileInfo, l1: string, l2: string, l3: string, l4: string, file: string)
    requires l1 == OK_STATUS + CRLF && l2 == SERVER_LINE + CRLF
    requires l3 == LENGTH_LINE + Decimal(Doit.FileSize(info)) + CRLF
    requires l4 == TYPE_LINE + GetFiletype(filename) + CRLF + CRLF
    requires file == if info.Regular? && info.ownerRead && Doit.FileSize(info) > 0 then info.content[..Doit.FileSize(info)] else []
    ensures Doit.ServeStatic(filename, info).out == l1 + l2 + l3 + l4 + file
  {
    var head := StaticHead(Doit.FileSize(info), GetFiletype(filename));
    Regroup4(OK_STATUS, CRLF, SERVER_LINE, CRLF, LENGTH_LINE, Decimal(Doit.FileSize(info)), CRLF,
             TYPE_LINE, GetFiletype(filename), CRLF, CRLF);
    assert head == l1 + l2 + l3 + l4;
    if file == [] {
      assert head + file == head;
    }
  }

  lemma Regroup4(x1: string, x2: string, x3: string, x4: string, x5: string, x6: string, x7: string,
                 x8: string, x9: string, x10: string, x11: string)
    ensures x1 + x2 + x3 + x4 + x5 + x6 + x7 + x8 + x9 + x10 + x11
      == (x1 + x2) + (x3 + x4) + (x5 + x6 + x7) + (x8 + x9 + x10 + x11)
  {
  }

  /** serve_static: the four head lines, each with Rio_writen, then Open, Mmap and
      the file's first `filesize` bytes. Open fails when the owner may not read the
      file and Mmap fails on anything but a regular file of positive size; both
      wrappers exit, as does a failed write. `wrote` is how much of the response
      Doit.ServeStatic describes went out: all of it, ending as that says, or a
      strict prefix when a write failed. */
  method ServeStatic(fd: Descriptor, filename: string, info: Doit.FileInfo) returns (end: Doit.End, ghost wrote: nat)
    requires fd.Valid()
    modifies fd
    ensures fd.Valid() && fd.input == old(fd.input)
    ensures var spec := Doit.ServeStatic(filename, info);
      wrote <= |spec.out| && fd.sent == old(fd.sent) + spec.out[..wrote]
      && (wrote == |spec.out| ==> end == spec.end)
      && (wrote < |spec.out| ==> end == Doit.Exited && !NoWriteFaults(old(fd.output)))
  {
    ghost var spec := Doit.ServeStatic(filename, info);
    ghost var whole := spec.out;
    ghost var before := fd.sent;
    var filesize := Doit.FileSize(info);
    var l1 := OK_STATUS + CRLF;
    var l2 := SERVER_LINE + CRLF;
    var l3 := LENGTH_LINE + Decimal(filesize) + CRLF;
    var l4 := TYPE_LINE + GetFiletype(filename) + CRLF + CRLF;
    var mapped := info.Regular? && info.ownerRead && filesize > 0;
    var file := if mapped then info.content[..filesize] else [];
    StaticPieces(filename, info, l1, l2, l3, l4, file);
    ghost var a, b, c, d := |l1|, |l1| + |l2|, |l1| + |l2| + |l3|, |l1| + |l2| + |l3| + |l4|;
    ghost var e := d + |file|;
    Pieces5(whole, l1, l2, l3, l4, file, a, b, c, d, e);
    assert fd.sent == before + whole[..0];
    end := Doit.Exited;
    var ok;
    ok, wrote := SendAt(fd, l1, before, whole, 0, a);
    if !ok {
      return;
    }
    ok, wrote := SendAt(fd, l2, before, whole, a, b);
    if !ok {
      return;
    }
    ok, wrote := SendAt(fd, l3, before, whole, b, c);
    if !ok {
      return;
    }
    ok, wrote := SendAt(fd, l4, before, whole, c, d);
    if !ok {
      return;
    }
    if !mapped {
      return;   // Open or Mmap fails and the wrapper exits
    }
    ok, wrote := SendAt(fd, file, before, whole, d, e);
    if !ok {
      return;
    }
    end := Doit.Done;
  }
}
