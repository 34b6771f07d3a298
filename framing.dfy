/**
 * The framing of an HTTP/1.0 response head as the server and the CGI adder
 * write it: header lines each ended by CR LF, then an empty line.
 */
module Framing {
  import opened Wrappers
  import opened CText

  const CRLF: string := "\r\n"
  const BLANK: string := "\r\n\r\n"

  /** The head made of `lines`: each line followed by CR LF, then the CR LF of the empty line. */
  function Block(lines: seq<string>): (r: string)
    ensures |r| >= 2
  {
    if lines == [] then CRLF else lines[0] + CRLF + Block(lines[1..])
  }

  /** A header line: not empty and without a carriage return. */
  predicate PlainLine(l: string) {
    l != [] && '\r' !in l
  }

  predicate PlainLines(lines: seq<string>) {
    forall i | 0 <= i < |lines| :: PlainLine(lines[i])
  }

  lemma BlockCons(x: string, rest: seq<string>)
    ensures Block([x] + rest) == x + CRLF + Block(rest)
  {
    assert ([x] + rest)[1..] == rest;
  }

  lemma BlockOfTwo(x: string, y: string)
    ensures Block([x, y]) == x + CRLF + y + CRLF + CRLF
  {
    BlockCons(x, [y]);
    BlockCons(y, []);
  }

  lemma BlockOfFour(a: string, b: string, c: string, d: string)
    ensures Block([a, b, c, d]) == a + CRLF + b + CRLF + c + CRLF + d + CRLF + CRLF
  {
    BlockCons(a, [b, c, d]);
    BlockCons(b, [c, d]);
    BlockOfTwo(c, d);
  }

  /** A head with at least one line ends with the empty line. */
  lemma {:induction false} BlockTail(lines: seq<string>)
    requires lines != []
    ensures |Block(lines)| >= 4 && Block(lines)[|Block(lines)| - 4..] == BLANK
  {
    var rest := lines[1..];
    if rest != [] {
      BlockTail(rest);
      var b := Block(rest);
      assert Block(lines) == (lines[0] + CRLF) + b;
      assert Block(lines)[|Block(lines)| - 4..] == b[|b| - 4..];
    }
  }

  /** A pattern occurs in `t` exactly where it occurs in `p + t`, |p| further on. */
  lemma OccursShifted(p: string, t: string, pat: string, j: nat)
    ensures OccursAt(p + t, pat, |p| + j) <==> OccursAt(t, pat, j)
  {
    if j + |pat| <= |t| {
      assert (p + t)[|p| + j..|p| + j + |pat|] == t[j..j + |pat|];
    }
  }

  /** No empty line starts inside the head before its own end. */
  lemma {:induction false} BlockNoEarlyEnd(lines: seq<string>, body: string, i: nat)
    requires lines != [] && PlainLines(lines)
    requires i < |Block(lines)| - 4
    ensures !OccursAt(Block(lines) + body, BLANK, i)
  {
    var l := lines[0];
    var rest := lines[1..];
    var p := l + CRLF;
    var t := Block(rest) + body;
    var s := Block(lines) + body;
    assert s == p + t;
    if i < |l| {
      assert s[i] == l[i] && l[i] != '\r';
    } else if i == |l| {
      assert rest != [] && PlainLine(rest[0]);
      assert s[i + 2] == rest[0][0];
    } else if i == |l| + 1 {
      assert s[i] == '\n';
    } else {
      var j := i - |p|;
      assert rest != [] && PlainLines(rest);
      BlockNoEarlyEnd(rest, body, j);
      OccursShifted(p, t, BLANK, j);
    }
  }

  /** A client that reads up to the first empty line reads exactly the head, and the
      body starts right after it, whatever the body holds. */
  lemma BlockEnds(lines: seq<string>, body: string)
    requires lines != [] && PlainLines(lines)
    ensures FindSub(Block(lines) + body, BLANK) == Some(|Block(lines)| - 4)
  {
    var s := Block(lines) + body;
    var n := |Block(lines)|;
    BlockTail(lines);
    assert s[n - 4..n] == BLANK;
    forall i: nat | i < n - 4
      ensures !OccursAt(s, BLANK, i)
    {
      BlockNoEarlyEnd(lines, body, i);
    }
    FindSubAt(s, BLANK, n - 4);
  }
}
