/**
 * calculate/add.c, the CGI program behind /calculate/add: it reads two integers
 * separated by '&' from QUERY_STRING and prints a response carrying their sum.
 */
module AddCgi {
  import opened Wrappers
  import opened CText
  import opened Framing

  /** What the program does: the text it prints to standard output, or a signed
      overflow in n1 + n2, which C leaves undefined. */
  datatype Run = Printed(out: string) | Overflow

  const STATUS: string := "HTTP/1.0 200 OK"
  const JSON_TYPE: string := "Content-type:application/json"

  /** The head printed before the sum: a status line and a content type. */
  const HEAD: string := STATUS + CRLF + JSON_TYPE + CRLF + CRLF

  /** The program run with QUERY_STRING unset (None) or set to the given C string. */
  function Adder(query: Option<string>): (r: Run)
  {
    match query
    case None => Printed("QUERY_STRING is empty\n")
    case Some(buf) =>
      match IndexOf(buf, '&')
      case None => Printed("invalid query string: " + buf + "\n")
      case Some(i) =>
        var sum := Atoi(buf[..i]) + Atoi(buf[i + 1..]);
        if InInt(sum) then Printed(Output(sum)) else Overflow
  }

  /** What a successful run prints: the head, then "sum=" and the sum in decimal. */
  function Output(sum: int): string {
    HEAD + "sum=" + Decimal(sum)
  }

  lemma SuffixAfter(h: string, d: string)
    ensures (h + d)[|h|..] == d
  {
  }

  /** The query "n1&n2" splits at the '&' between the two numbers. */
  lemma QuerySplit(a: int, b: int)
    ensures var q, i := Decimal(a) + "&" + Decimal(b), |Decimal(a)|;
      '\0' !in q && IndexOf(q, '&') == Some(i) && q[..i] == Decimal(a) && q[i + 1..] == Decimal(b)
  {
    var q := Decimal(a) + "&" + Decimal(b);
    var i := |Decimal(a)|;
    DecimalPlain(a);
    DecimalPlain(b);
    assert q[i] == '&' && q[..i] == Decimal(a);
    assert q[i + 1..] == Decimal(b);
  }

  /** With a '&' at `i`, the adder prints the sum of what atoi reads on either side. */
  lemma AdderAt(buf: string, i: nat, n1: int, n2: int)
    requires IndexOf(buf, '&') == Some(i) && Atoi(buf[..i]) == n1 && Atoi(buf[i + 1..]) == n2
    ensures Adder(Some(buf)) == if InInt(n1 + n2) then Printed(Output(n1 + n2)) else Overflow
  {
    var sum := n1 + n2;
    assert Adder(Some(buf)) == if InInt(sum) then Printed(Output(sum)) else Overflow;
  }

  /** Two numbers written as the query "n1&n2" come back as their sum. */
  lemma AdderSum(a: int, b: int)
    requires InInt(a) && InInt(b) && InInt(a + b)
    ensures var q := Decimal(a) + "&" + Decimal(b);
      '\0' !in q && Adder(Some(q)) == Printed(Output(a + b))
  {
    var q := Decimal(a) + "&" + Decimal(b);
    var i := |Decimal(a)|;
    QuerySplit(a, b);
    AtoiDecimal(a);
    AtoiDecimal(b);
    AdderAt(q, i, a, b);
  }

  /** A client reading the number after "sum=" gets the sum back. */
  lemma SumReadsBack(sum: int)
    requires InInt(sum)
    ensures Atoi((HEAD + "sum=" + Decimal(sum))[|HEAD| + 4..]) == sum
  {
    AtoiDecimal(sum);
    SuffixAfter(HEAD + "sum=", Decimal(sum));
  }

  /** The head is a status line and a content-type line, framed as an HTTP head. */
  lemma HeadIsBlock()
    ensures HEAD == Block([STATUS, JSON_TYPE]) && PlainLines([STATUS, JSON_TYPE])
  {
    BlockOfTwo(STATUS, JSON_TYPE);
  }

  /** The head the adder prints ends at its empty line, so the body a client sees is "sum=...". */
  lemma AdderHead(sum: int)
    ensures FindSub(HEAD + "sum=" + Decimal(sum), BLANK) == Some(|HEAD| - 4)
  {
    HeadIsBlock();
    var body := "sum=" + Decimal(sum);
    assert HEAD + "sum=" + Decimal(sum) == HEAD + body;
    BlockEnds([STATUS, JSON_TYPE], body);
  }

  /** Without a '&' the adder reports the query back as invalid; with one it either
      overflows or prints the JSON head followed by the sum. */
  lemma AdderReplies(q: string)
    ensures '&' !in q <==> Adder(Some(q)) == Printed("invalid query string: " + q + "\n")
    ensures '&' in q && Adder(Some(q)).Printed? ==>
      |Adder(Some(q)).out| > |HEAD| + 4 && Adder(Some(q)).out[..|HEAD| + 4] == HEAD + "sum="
  {
    var r := Adder(Some(q));
    var invalid := "invalid query string: " + q + "\n";
    if '&' in q {
      var i := IndexOf(q, '&').value;
      var n1, n2 := Atoi(q[..i]), Atoi(q[i + 1..]);
      AdderAt(q, i, n1, n2);
      if InInt(n1 + n2) {
        OutputShape(n1 + n2);
        assert r.out[0] == 'H' && invalid[0] == 'i';
      }
    } else {
      assert IndexOf(q, '&') == None;
    }
  }

  /** What a successful run prints starts with the head and "sum=", and so with 'H'. */
  lemma OutputShape(sum: int)
    ensures |Output(sum)| > |HEAD| + 4 && Output(sum)[..|HEAD| + 4] == HEAD + "sum="
    ensures Output(sum)[0] == 'H'
  {
    var front := HEAD + "sum=";
    var out := Output(sum);
    DecimalPlain(sum);
    assert out == front + Decimal(sum);
    assert HEAD[0] == 'H';
    assert out[0] == front[0] == HEAD[0];
  }

  /** With QUERY_STRING unset the program prints exactly "QUERY_STRING is empty",
      and no query that is set, whatever it holds, draws that reply. */
  lemma AdderUnset()
    ensures Adder(None) == Printed("QUERY_STRING is empty\n")
    ensures forall q :: Adder(Some(q)) != Adder(None)
  {
    forall q {
      AdderSetNotEmpty(q);
    }
  }

  lemma AdderSetNotEmpty(q: string)
    ensures Adder(Some(q)) != Printed("QUERY_STRING is empty\n")
  {
    var r := Adder(Some(q));
    match IndexOf(q, '&')
    case None =>
      assert r.out[0] == 'i';
    case Some(i) =>
      var sum := Atoi(q[..i]) + Atoi(q[i + 1..]);
      if InInt(sum) {
        OutputShape(sum);
        assert r.out[0] == 'H';
      }
  }
}
