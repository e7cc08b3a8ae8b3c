/**
 * The wire protocol of the legacy socket client: requests framed as RESP multi-bulk
 * messages, replies read line by line from the connection's input, bulk payloads read by
 * length in chunks, a bounded number of attempts per command with a reconnect between
 * attempts, the `INFO` text parser and MULTI/EXEC transactions. The socket is the text the
 * server sends on each connection (one char per byte) and the messages written to it.
 */
module Resp {
  import opened Wrappers
  import opened Strings

  const MaxBufferSize := 8192
  const MaxAttempts := 3
  /** The `maxlength` given to `stream_get_line`. */
  const MaxLine := 4096

  /** A parsed reply. */
  datatype Reply =
    | Nil                              // a `$` or `*` reply of length -1, or any line reading as -1
    | Line(kind: char, text: string)   // a `+` or `:` line: its text after the type byte
    | Bulk(data: string)
    | MultiBulk(items: seq<Reply>)
    | Fault(message: string)           // an error line inside a multi-bulk reply, kept as a value

  /** What `readLine` answers: the type byte and either the text after it or an exception. */
  datatype Body = Text(text: string) | Raised(message: string)
  datatype Head = Head(kind: char, body: Body)

  // ---------------------------------------------------------------------------------
  // Requests

  /** The command as sent: upper-cased, `_` written as a space. */
  function CommandName(command: string): (name: string)
    ensures '_' !in name
  {
    ReplaceChar(Upper(command), '_', " ")
  }

  /** One bulk item of a request: `$`, its byte length, CRLF, the item, CRLF. */
  function Frame(item: string): string {
    "$" + NatToString(|item|) + CRLF + item + CRLF
  }

  /** The items of a request, framed one after another. */
  function Frames(items: seq<string>): string
    decreases |items|
  {
    if items == [] then [] else Frames(items[..|items| - 1]) + Frame(items[|items| - 1])
  }

  /** The request for a command and its arguments: a multi-bulk of the command name and the arguments. */
  function Message(command: string, args: seq<string>): string {
    "*" + NatToString(|args| + 1) + CRLF + Frames([CommandName(command)] + args)
  }

  /** Framing one more item appends its frame. */
  lemma FramesSnoc(items: seq<string>, i: nat)
    requires i < |items|
    ensures Frames(items[..i + 1]) == Frames(items[..i]) + Frame(items[i])
  {
    assert items[..i + 1][..i] == items[..i];
  }

  lemma {:induction false} FramesFront(items: seq<string>)
    requires items != []
    ensures Frames(items) == Frame(items[0]) + Frames(items[1..])
    decreases |items|
  {
    var n := |items|;
    if n > 1 {
      var front, tail := items[..n - 1], items[1..];
      FramesFront(front);
      assert front[1..] == tail[..|tail| - 1];
      var last := Frame(items[n - 1]);
      assert Frames(tail) == Frames(front[1..]) + last;
      assert Frames(items) == (Frame(front[0]) + Frames(front[1..])) + last;
      AppendAssoc(Frame(items[0]), Frames(front[1..]), last);
    }
  }

  // ---------------------------------------------------------------------------------
  // Replies, as functions of the text still to be read

  function Min(a: int, b: int): int {
    if a <= b then a else b
  }

  /**
   * `stream_get_line(.., MaxLine, CRLF)`: the text up to a CRLF found within the first
   * `MaxLine` bytes (the CRLF is consumed), else the first `MaxLine` bytes (or what is
   * left); nothing at the end of the input.
   */
  function GetLine(input: string): (r: (Option<string>, string))
    ensures r.0.None? <==> input == []
    ensures input != [] ==> |r.1| < |input|
    ensures |r.1| <= |input|
  {
    if input == [] then (None, [])
    else
      var n := Min(|input|, MaxLine);
      match IndexOfCrlf(input[..n])
      case Some(i) => (Some(input[..i]), input[i + 2..])
      case None => (Some(input[..n]), input[n..])
  }

  /** What a line of a reply carries: the text after its type byte, or an exception. */
  function Classify(l: string): Body
    requires l != []
  {
    if l[0] == '-' then Raised(l[1..])
    else if l[0] !in "+:$*" then Raised("Invalid answer")
    else Text(l[1..])
  }

  /**
   * readLine: a missing, empty or `"0"` line fails with "Request failed". A `-` line carries
   * its message as an exception and a line of unknown type the exception "Invalid answer";
   * on the first line of a reply either is raised, deeper down it is returned.
   */
  function ReadLineOf(input: string, first: bool): (r: (Result<Head, Error>, string))
    ensures |r.1| <= |input|
    ensures r.0.Success? ==> |r.1| < |input|
  {
    var (line, rest) := GetLine(input);
    if line.None? || Empty(line.value) then (Failure(ClientError("Request failed")), rest)
    else if first && Classify(line.value).Raised? then (Failure(ClientError(Classify(line.value).message)), rest)
    else (Success(Head(line.value[0], Classify(line.value))), rest)
  }

  /** The first `n` bytes of `s` (all of it when shorter; none for `n <= 0`). */
  function Take(s: string, n: int): (t: string)
    ensures t <= s
    ensures n >= 0 ==> |t| == Min(n, |s|)
    ensures n < 0 ==> t == []
  {
    if n <= 0 then [] else s[..Min(n, |s|)]
  }

  /** Reading `m` more bytes after the first `n` reads the first `n + m`. */
  lemma TakeMore(s: string, t: string, u: string, n: int, m: int)
    requires n >= 0 && m >= 0 && s == t + u && t == Take(s, n)
    ensures t + Take(u, m) == Take(s, n + m)
  {
    if m > 0 {
      assert |t| == Min(n, |s|);
    }
  }

  /**
   * readResponse: `length` bytes (fewer at the end of the input). Bytes owed but an empty
   * (or `"0"`) buffer read fails with "Timeout".
   */
  function ReadBulk(input: string, length: int): (Result<string, Error>, string) {
    var b := Take(input, length);
    (if Empty(b) && length != 0 then Failure(ClientError("Timeout")) else Success(b), input[|b|..])
  }

  /**
   * A bulk read consumes exactly the bytes it returns, and fails only when it owes bytes
   * and reads none (or reads just `"0"`).
   */
  lemma ReadBulkConsumes(input: string, length: int)
    ensures var (r, rest) := ReadBulk(input, length);
      && input == Take(input, length) + rest
      && (r.Success? ==> r.value == Take(input, length))
      && (r.Failure? <==> Empty(Take(input, length)) && length != 0)
  {
    var b := Take(input, length);
    assert input == b + input[|b|..];
  }

  /** A bulk read, given the bytes it takes and the rest. */
  lemma ReadBulkOf(input: string, length: int, b: string, rest: string)
    requires b == Take(input, length) && input == b + rest
    ensures ReadBulk(input, length) == (if Empty(b) && length != 0 then Failure(ClientError("Timeout")) else Success(b), rest)
  {
    assert input[|b|..] == rest;
  }

  /** `substr($line, 0, strlen($line) - 2)`: the bulk without its trailing CRLF. */
  function Strip(line: string): string {
    if |line| >= 2 then line[..|line| - 2] else []
  }

  /** The items read so far, put in front of what the rest of the reply yields. */
  function Prefixed(items: seq<Reply>, p: (Result<seq<Reply>, Error>, string)): (Result<seq<Reply>, Error>, string) {
    if p.0.Success? then (Success(items + p.0.value), p.1) else p
  }

  lemma PrefixedNone(p: (Result<seq<Reply>, Error>, string))
    ensures Prefixed([], p) == p
  {
    if p.0.Success? {
      assert [] + p.0.value == p.0.value;
    }
  }

  lemma PrefixedTwice(a: seq<Reply>, b: seq<Reply>, p: (Result<seq<Reply>, Error>, string))
    ensures Prefixed(a, Prefixed(b, p)) == Prefixed(a + b, p)
  {
    if p.0.Success? {
      assert a + (b + p.0.value) == (a + b) + p.0.value;
    }
  }

  /**
   * parseResponse after the line `head`: a line reading as -1 is null; a `$` line reads the
   * announced length plus CRLF and drops the CRLF; a `*` line reads that many nested
   * replies; an exception is returned as a value; other lines are their text.
   */
  function Parse(head: Head, input: string): (r: (Result<Reply, Error>, string))
    ensures |r.1| <= |input|
    decreases |input|, 1
  {
    match head.body
    case Raised(m) => (Success(Fault(m)), input)
    case Text(s) =>
      if ParseInt(s) == -1 then (Success(Nil), input)
      else if head.kind == '$' then
        var (b, rest) := ReadBulk(input, ParseInt(s) + 2);
        (if b.Success? then Success(Bulk(Strip(b.value))) else Failure(b.error), rest)
      else if head.kind == '*' then
        var (items, rest) := Items(input, ParseInt(s));
        (if items.Success? then Success(MultiBulk(items.value)) else Failure(items.error), rest)
      else (Success(Line(head.kind, s)), input)
  }

  /** `count` nested replies, each a line and what follows it (none for a count below 1). */
  function Items(input: string, count: int): (r: (Result<seq<Reply>, Error>, string))
    ensures |r.1| <= |input|
    ensures r.0.Success? ==> |r.0.value| == if count > 0 then count else 0
    decreases |input|, 0, count
  {
    if count <= 0 then (Success([]), input)
    else
      var (h, rest) := ReadLineOf(input, false);
      if h.Failure? then (Failure(h.error), rest)
      else
        var (first, rest') := Parse(h.value, rest);
        if first.Failure? then (Failure(first.error), rest')
        else Prefixed([first.value], Items(rest', count - 1))
  }

  /** A whole reply: the first line (whose exceptions are raised), then what follows it. */
  function Receive(input: string): (r: (Result<Reply, Error>, string))
    ensures |r.1| <= |input|
  {
    var (h, rest) := ReadLineOf(input, true);
    if h.Failure? then (Failure(h.error), rest) else Parse(h.value, rest)
  }

  // ---------------------------------------------------------------------------------
  // Round trip: a request read back as a reply

  /** A line short enough for `stream_get_line` is read whole, its CRLF consumed. */
  lemma LineOf(a: string, b: string)
    requires '\r' !in a && |a| + 2 <= MaxLine
    ensures GetLine(a + CRLF + b) == (Some(a), b)
  {
    var input := a + CRLF + b;
    var p := input[..Min(|input|, MaxLine)];
    assert CrlfAt(p, |a|);
    assert forall k :: 0 <= k < |a| ==> p[k] == a[k];
    assert IndexOfCrlf(p) == Some(|a|);
    assert input[..|a|] == a;
    assert input[|a| + 2..] == b;
  }

  /** Reading a line that is not falsy: its head, or its exception on a reply's first line. */
  lemma ReadsLine(l: string, b: string, first: bool)
    requires '\r' !in l && |l| + 2 <= MaxLine && !Empty(l)
    ensures ReadLineOf(l + CRLF + b, first)
            == if first && Classify(l).Raised? then (Failure(ClientError(Classify(l).message)), b)
               else (Success(Head(l[0], Classify(l))), b)
  {
    LineOf(l, b);
  }

  /** The decimal text of a length never holds a CR. */
  lemma DigitsHaveNoCr(n: nat)
    ensures '\r' !in NatToString(n) && '\r' !in "$" + NatToString(n) && '\r' !in "*" + NatToString(n)
  {
    var d := NatToString(n);
    assert forall i :: 0 <= i < |d| ==> IsDigit(d[i]);
  }

  /** Every length in the request is written in fewer digits than fit on one line. */
  ghost predicate Framable(items: seq<string>) {
    forall i :: 0 <= i < |items| ==> |NatToString(|items[i]|)| + 3 <= MaxLine
  }

  /** One framed item reads back as a bulk reply holding exactly that item, CRLFs included. */
  lemma FrameReads(x: string, tail: string)
    requires |NatToString(|x|)| + 3 <= MaxLine
    ensures ReadLineOf(Frame(x) + tail, false) == (Success(Head('$', Text(NatToString(|x|)))), x + CRLF + tail)
    ensures Parse(Head('$', Text(NatToString(|x|))), x + CRLF + tail) == (Success(Bulk(x)), tail)
  {
    var d := NatToString(|x|);
    var l := "$" + d;
    DigitsHaveNoCr(|x|);
    assert Frame(x) + tail == l + CRLF + (x + CRLF + tail);
    assert l[0] == '$' && l[1..] == d;
    assert Classify(l) == Text(d);
    ReadsLine(l, x + CRLF + tail, false);
    BulkReads(x, tail);
  }

  lemma BulkReads(x: string, tail: string)
    ensures Parse(Head('$', Text(NatToString(|x|))), x + CRLF + tail) == (Success(Bulk(x)), tail)
  {
    ParseIntOfDigits(|x|);
    BulkTake(x, tail);
    BulkOf(Head('$', Text(NatToString(|x|))), x + CRLF + tail);
    assert Strip(x + CRLF) == x;
  }

  /** A bulk's announced length plus CRLF reads exactly the bulk and its CRLF. */
  lemma BulkTake(x: string, tail: string)
    ensures ReadBulk(x + CRLF + tail, |x| + 2) == (Success(x + CRLF), tail)
  {
    var input := x + CRLF + tail;
    assert Take(input, |x| + 2) == x + CRLF;
    assert input[|x| + 2..] == tail;
  }

  /** A bulk line: the reply is the announced bytes and CRLF, the CRLF dropped. */
  lemma BulkOf(head: Head, input: string)
    requires head.body.Text? && ParseInt(head.body.text) != -1 && head.kind == '$'
    ensures var (b, rest) := ReadBulk(input, ParseInt(head.body.text) + 2);
      Parse(head, input) == (if b.Success? then Success(Bulk(Strip(b.value))) else Failure(b.error), rest)
  {
  }

  function Bulks(items: seq<string>): (r: seq<Reply>)
    ensures |r| == |items| && forall i :: 0 <= i < |items| ==> r[i] == Bulk(items[i])
  {
    seq(|items|, i requires 0 <= i < |items| => Bulk(items[i]))
  }

  /** Framed items read back as nested replies are bulks holding exactly those items. */
  lemma {:induction false} ItemsOfFrames(items: seq<string>, rest: string)
    requires Framable(items)
    ensures Items(Frames(items) + rest, |items|) == (Success(Bulks(items)), rest)
    decreases |items|
  {
    if items == [] {
      assert Frames(items) + rest == rest;
    } else {
      FramableTail(items);
      ItemsOfFrames(items[1..], rest);
      FramesStep(items, rest);
    }
  }

  /** The first framed item reads back as a bulk in front of the others. */
  lemma FramesStep(items: seq<string>, rest: string)
    requires items != [] && Framable(items)
    requires Items(Frames(items[1..]) + rest, |items| - 1) == (Success(Bulks(items[1..])), rest)
    ensures Items(Frames(items) + rest, |items|) == (Success(Bulks(items)), rest)
  {
    var x := items[0];
    var after := Frames(items[1..]) + rest;
    FramesSplit(items, rest);
    FrameReads(x, after);
    ItemsStep(Frame(x) + after, |items|, Head('$', Text(NatToString(|x|))), x + CRLF + after, Bulk(x), after);
    BulksFront(items);
  }

  lemma FramesSplit(items: seq<string>, rest: string)
    requires items != []
    ensures Frames(items) + rest == Frame(items[0]) + (Frames(items[1..]) + rest)
  {
    FramesFront(items);
  }

  lemma FramableTail(items: seq<string>)
    requires items != [] && Framable(items)
    ensures Framable(items[1..])
  {
    forall i | 0 <= i < |items[1..]|
      ensures |NatToString(|items[1..][i]|)| + 3 <= MaxLine
    {
      assert items[1..][i] == items[i + 1];
    }
  }

  lemma BulksFront(items: seq<string>)
    requires items != []
    ensures Bulks(items) == [Bulk(items[0])] + Bulks(items[1..])
  {
  }

  /**
   * A request read back as a reply is the multi-bulk of the command name and the
   * arguments, whatever bytes (CR and LF included) the arguments hold, and reading stops
   * exactly at its end.
   */
  lemma RequestRoundTrip(command: string, args: seq<string>, rest: string)
    requires |NatToString(|args| + 1)| + 3 <= MaxLine && Framable([CommandName(command)] + args)
    ensures Receive(Message(command, args) + rest) == (Success(MultiBulk(Bulks([CommandName(command)] + args))), rest)
  {
    var all := [CommandName(command)] + args;
    var n := NatToString(|all|);
    CountLine(|all|, Frames(all) + rest);
    assert Message(command, args) + rest == "*" + n + CRLF + (Frames(all) + rest);
    ReceiveStep(Message(command, args) + rest, Head('*', Text(n)), Frames(all) + rest);
    ItemsOfFrames(all, rest);
    CountParse(all, rest);
  }

  /** The count line of a multi-bulk request. */
  lemma CountLine(count: nat, b: string)
    requires |NatToString(count)| + 3 <= MaxLine
    ensures ReadLineOf("*" + NatToString(count) + CRLF + b, true) == (Success(Head('*', Text(NatToString(count)))), b)
  {
    var n := NatToString(count);
    var l := "*" + n;
    DigitsHaveNoCr(count);
    assert l[0] == '*' && l[1..] == n;
    assert Classify(l) == Text(n);
    ReadsLine(l, b, true);
  }

  /** After its count line, a multi-bulk of framed items holds the items as bulks. */
  lemma CountParse(all: seq<string>, rest: string)
    requires Items(Frames(all) + rest, |all|) == (Success(Bulks(all)), rest)
    ensures Parse(Head('*', Text(NatToString(|all|))), Frames(all) + rest) == (Success(MultiBulk(Bulks(all))), rest)
  {
    ParseIntOfDigits(|all|);
  }

  /** An error line raises when it starts the reply and is a value inside a multi-bulk reply. */
  lemma ErrorsRaiseOnlyFirst(message: string, rest: string)
    requires '\r' !in message && |message| + 3 <= MaxLine
    ensures Receive("-" + message + CRLF + rest) == (Failure(ClientError(message)), rest)
    ensures Items("-" + message + CRLF + rest, 1) == (Success([Fault(message)]), rest)
  {
    var l := "-" + message;
    assert l[0] == '-' && l[1..] == message;
    assert '\r' !in l by {
      assert forall i :: 1 <= i < |l| ==> l[i] == message[i - 1];
    }
    assert Classify(l) == Raised(message);
    ReadsLine(l, rest, true);
    ReadsLine(l, rest, false);
    assert Items(rest, 0) == (Success([]), rest);
    assert [Fault(message)] + [] == [Fault(message)];
  }

  /**
   * A reply whose first line reads as -1 is null and nothing after that line is read; this
   * is how a `$` or `*` length of -1 answers null.
   */
  lemma NullReply(kind: char, rest: string)
    requires kind in "+:$*"
    ensures Receive([kind] + "-1" + CRLF + rest) == (Success(Nil), rest)
  {
    MinusOne();
    NullLine(kind, rest);
    ReceiveStep([kind] + "-1" + CRLF + rest, Head(kind, Text("-1")), rest);
    NullParse(kind, rest);
  }

  lemma MinusOne()
    ensures ParseInt("-1") == -1
  {
    ParseIntOfNegative(1);
    assert NatToString(1) == "1";
  }

  lemma NullParse(kind: char, rest: string)
    requires ParseInt("-1") == -1
    ensures Parse(Head(kind, Text("-1")), rest) == (Success(Nil), rest)
  {
  }

  lemma NullLine(kind: char, rest: string)
    requires kind in "+:$*"
    ensures ReadLineOf([kind] + "-1" + CRLF + rest, true) == (Success(Head(kind, Text("-1"))), rest)
  {
    var l := [kind] + "-1";
    assert l[0] == kind && l[1..] == "-1";
    assert Classify(l) == Text("-1") && !Empty(l);
    ReadsLine(l, rest, true);
  }

  /** A reply whose first line reads as `h` is what follows `h`. */
  lemma ReceiveStep(input: string, h: Head, rest: string)
    requires ReadLineOf(input, true) == (Success(h), rest)
    ensures Receive(input) == Parse(h, rest)
  {
  }

  /** A nested reply whose line fails fails the multi-bulk reply. */
  lemma LineFails(input: string, count: int)
    requires count > 0 && ReadLineOf(input, false).0.Failure?
    ensures Items(input, count) == (Failure(ReadLineOf(input, false).0.error), ReadLineOf(input, false).1)
  {
  }

  /** A nested reply that fails after its line fails the multi-bulk reply. */
  lemma ItemFails(input: string, count: int, h: Head, rest: string)
    requires count > 0 && ReadLineOf(input, false) == (Success(h), rest) && Parse(h, rest).0.Failure?
    ensures Items(input, count) == (Failure(Parse(h, rest).0.error), Parse(h, rest).1)
  {
  }

  /** No nested replies left: the ones read so far are the result. */
  lemma ItemsNone(items: seq<Reply>, input: string, count: int)
    requires count <= 0
    ensures Prefixed(items, Items(input, count)) == (Success(items), input)
  {
    assert items + [] == items;
  }

  /** A multi-bulk line: the reply is the nested replies it announces. */
  lemma MultiOf(head: Head, input: string)
    requires head.body.Text? && ParseInt(head.body.text) != -1 && head.kind == '*'
    ensures var (items, rest) := Items(input, ParseInt(head.body.text));
      Parse(head, input) == (if items.Success? then Success(MultiBulk(items.value)) else Failure(items.error), rest)
  {
  }

  /** `whole` is what is read so far put in front of the `count` nested replies still to read. */
  ghost predicate Pending(whole: (Result<seq<Reply>, Error>, string), items: seq<Reply>, input: string, count: int) {
    whole == Prefixed(items, Items(input, count))
  }

  /** The loop of parseResponse reads one more nested reply. */
  lemma ItemsMore(whole: (Result<seq<Reply>, Error>, string), items: seq<Reply>, input: string, count: int,
                  h: Head, rest: string, item: Reply, rest': string)
    requires count > 0 && Pending(whole, items, input, count)
    requires ReadLineOf(input, false) == (Success(h), rest) && Parse(h, rest) == (Success(item), rest')
    ensures Pending(whole, items + [item], rest', count - 1)
  {
    ItemsStep(input, count, h, rest, item, rest');
    PrefixedTwice(items, [item], Items(rest', count - 1));
  }

  /** One more nested reply read in front of the others. */
  lemma ItemsStep(input: string, count: int, h: Head, rest: string, first: Reply, rest': string)
    requires count > 0
    requires ReadLineOf(input, false) == (Success(h), rest) && Parse(h, rest) == (Success(first), rest')
    ensures Items(input, count) == Prefixed([first], Items(rest', count - 1))
  {
  }

  // ---------------------------------------------------------------------------------
  // Sending with retries

  /** The connection state: unread input, what later connections will send, messages written, reconnects. */
  datatype Wire = Wire(input: string, upcoming: seq<string>, sent: seq<string>, reconnects: nat)

  /** How many times a command is tried: once for `exec` and `discard`, otherwise MaxAttempts. */
  function Attempts(cmd: string): (n: nat)
    ensures 1 <= n <= MaxAttempts
  {
    if Lower(cmd) == "exec" || Lower(cmd) == "discard" then 1 else MaxAttempts
  }

  /** The commands the client sends itself are lower case already; only exec and discard are tried once. */
  lemma CommandWords()
    ensures Lower("info") == "info" && Attempts("info") == MaxAttempts
    ensures Lower("multi") == "multi" && Attempts("multi") == MaxAttempts
    ensures Lower("exec") == "exec" && Attempts("exec") == 1
    ensures Lower("discard") == "discard" && Attempts("discard") == 1
  {
    assert Lower("info") == "info";
    assert Lower("multi") == "multi";
    assert Lower("exec") == "exec";
    assert Lower("discard") == "discard";
  }

  /** close and connect: the next connection's input (empty when the server sends nothing more). */
  function Reconnected(w: Wire): Wire {
    if w.upcoming == [] then w.(input := [], reconnects := w.reconnects + 1)
    else w.(input := w.upcoming[0], upcoming := w.upcoming[1..], reconnects := w.reconnects + 1)
  }

  /** The input of the k-th attempt, counting the current connection as the 0th. */
  function Stream(w: Wire, k: nat): string {
    if k == 0 then w.input else if k - 1 < |w.upcoming| then w.upcoming[k - 1] else []
  }

  /** How a reply is read from the input: the reply and the input left (Receive, on the wire). */
  type Reader = string -> (Result<Reply, Error>, string)

  /** One attempt: write the message, read the reply. */
  function Exchange(w: Wire, message: string, read: Reader): (Result<Reply, Error>, Wire) {
    var (r, rest) := read(w.input);
    (r, w.(input := rest, sent := w.sent + [message]))
  }

  /** send's loop: attempts until one succeeds or `tries` are used, reconnecting in between. */
  function Deliver(w: Wire, message: string, tries: nat, read: Reader): (Result<Reply, Error>, Wire)
    requires tries >= 1
    decreases tries
  {
    var (r, w') := Exchange(w, message, read);
    if r.Success? || tries == 1 then (r, w') else Deliver(Reconnected(w'), message, tries - 1, read)
  }

  /**
   * `r` is the reply of the first attempt that succeeds among `tries` attempts on the
   * connections from `w` on; when none does, the error of the last.
   */
  ghost predicate FirstSuccess(w: Wire, tries: nat, r: Result<Reply, Error>, read: Reader)
    requires tries >= 1
  {
    && (r.Success? <==> exists k :: 0 <= k < tries && read(Stream(w, k)).0.Success?)
    && (r.Success? ==> exists k :: 0 <= k < tries && r == read(Stream(w, k)).0
                                   && forall j :: 0 <= j < k ==> read(Stream(w, j)).0.Failure?)
    && (r.Failure? ==> r == read(Stream(w, tries - 1)).0)
  }

  /**
   * From `w` to `w'` the message was written once per attempt, at least once and at most
   * `tries` times (all of them when `r` failed), with a reconnect before every attempt
   * after the first; what was written before stays.
   */
  ghost predicate Written(w: Wire, w': Wire, message: string, tries: nat, r: Result<Reply, Error>) {
    && (r.Failure? ==> |w'.sent| == |w.sent| + tries)
    && |w.sent| < |w'.sent| <= |w.sent| + tries
    && w'.reconnects == w.reconnects + (|w'.sent| - |w.sent| - 1)
    && w'.sent[..|w.sent|] == w.sent
    && forall j :: |w.sent| <= j < |w'.sent| ==> w'.sent[j] == message
  }

  /** The outcome of send: the first success within the attempts, each written once. */
  lemma {:induction false} DeliverAttempts(w: Wire, message: string, tries: nat, read: Reader)
    requires tries >= 1
    ensures FirstSuccess(w, tries, Deliver(w, message, tries, read).0, read)
    ensures Written(w, Deliver(w, message, tries, read).1, message, tries, Deliver(w, message, tries, read).0)
    decreases tries
  {
    if read(w.input).0.Success? || tries == 1 {
      DeliverFirst(w, message, tries, read);
    } else {
      DeliverAttempts(Reconnected(Exchange(w, message, read).1), message, tries - 1, read);
      DeliverNext(w, message, tries, read);
    }
  }

  /** A failed first attempt: what holds of the rest of send holds of all of it. */
  lemma DeliverNext(w: Wire, message: string, tries: nat, read: Reader)
    requires tries > 1 && read(w.input).0.Failure?
    requires var w2 := Reconnected(Exchange(w, message, read).1);
      && FirstSuccess(w2, tries - 1, Deliver(w2, message, tries - 1, read).0, read)
      && Written(w2, Deliver(w2, message, tries - 1, read).1, message, tries - 1, Deliver(w2, message, tries - 1, read).0)
    ensures FirstSuccess(w, tries, Deliver(w, message, tries, read).0, read)
    ensures Written(w, Deliver(w, message, tries, read).1, message, tries, Deliver(w, message, tries, read).0)
  {
    var w2 := Reconnected(Exchange(w, message, read).1);
    var next := Deliver(w2, message, tries - 1, read);
    DeliverAgain(w, message, tries, read);
    StreamShift(w, message, read);
    SuccessShift(w, w2, tries, next.0, read);
    WrittenShift(w, w2, next.1, message, tries, next.0, read);
  }

  /** When the first attempt succeeds or is the only one, send ends with it. */
  lemma DeliverFirst(w: Wire, message: string, tries: nat, read: Reader)
    requires tries >= 1 && (read(w.input).0.Success? || tries == 1)
    ensures FirstSuccess(w, tries, Deliver(w, message, tries, read).0, read)
    ensures Written(w, Deliver(w, message, tries, read).1, message, tries, Deliver(w, message, tries, read).0)
  {
    assert Stream(w, 0) == w.input;
    assert Deliver(w, message, tries, read) == Exchange(w, message, read);
  }

  /** When the first attempt fails and more are left, send goes on on the next connection. */
  lemma DeliverAgain(w: Wire, message: string, tries: nat, read: Reader)
    requires tries > 1 && read(w.input).0.Failure?
    ensures Deliver(w, message, tries, read) == Deliver(Reconnected(Exchange(w, message, read).1), message, tries - 1, read)
  {
  }

  /** The k-th connection after a reconnect is the (k+1)-th before it. */
  lemma StreamShift(w: Wire, message: string, read: Reader)
    ensures forall k: nat :: Stream(Reconnected(Exchange(w, message, read).1), k) == Stream(w, k + 1)
  {
  }

  lemma SuccessShift(w: Wire, w2: Wire, tries: nat, r: Result<Reply, Error>, read: Reader)
    requires tries > 1 && read(w.input).0.Failure?
    requires forall k: nat :: Stream(w2, k) == Stream(w, k + 1)
    requires FirstSuccess(w2, tries - 1, r, read)
    ensures FirstSuccess(w, tries, r, read)
  {
    assert Stream(w, 0) == w.input;
    if r.Success? {
      var k :| 0 <= k < tries - 1 && r == read(Stream(w2, k)).0
               && forall j :: 0 <= j < k ==> read(Stream(w2, j)).0.Failure?;
      assert r == read(Stream(w, k + 1)).0;
      forall j | 0 <= j < k + 1
        ensures read(Stream(w, j)).0.Failure?
      {
        if j > 0 {
          assert Stream(w, j) == Stream(w2, j - 1);
        }
      }
    } else {
      forall k | 0 <= k < tries
        ensures read(Stream(w, k)).0.Failure?
      {
        if k > 0 {
          assert Stream(w, k) == Stream(w2, k - 1);
        }
      }
    }
  }

  lemma WrittenShift(w: Wire, w2: Wire, w': Wire, message: string, tries: nat, r: Result<Reply, Error>, read: Reader)
    requires tries > 1 && w2 == Reconnected(Exchange(w, message, read).1)
    requires Written(w2, w', message, tries - 1, r)
    ensures Written(w, w', message, tries, r)
  {
    assert |w2.sent| == |w.sent| + 1 && w2.sent[..|w.sent|] == w.sent && w2.sent[|w.sent|] == message;
    assert w'.sent[..|w.sent|] == w'.sent[..|w2.sent|][..|w.sent|];
    forall j | |w.sent| <= j < |w'.sent|
      ensures w'.sent[j] == message
    {
      if j == |w.sent| {
        assert w'.sent[..|w2.sent|][j] == w2.sent[j];
      }
    }
  }

  /**
   * An EXEC answered by a null multi-bulk (a transaction aborted by a WATCH): the reply is
   * null, which exec turns into a TransactionException, and only EXEC was written. Since a
   * TransactionException is a RedisClientException, multi rethrows it without DISCARD.
   */
  lemma AbortedExec(w: Wire, rest: string)
    requires w.input == "*-1" + CRLF + rest
    ensures Deliver(w, Message("exec", []), 1, Receive)
            == (Success(Nil), w.(input := rest, sent := w.sent + [Message("exec", [])]))
    ensures IsClientError(TransactionAborted)
  {
    assert w.input == ['*'] + "-1" + CRLF + rest;
    NullReply('*', rest);
  }

  // ---------------------------------------------------------------------------------
  // INFO

  /** A value of the INFO answer: plain text (none when the row has no colon) or `k=v` pairs. */
  datatype Field = Plain(value: Option<string>) | Fields(pairs: map<string, Option<string>>)

  /** Rows the parser skips: empty ones (`""` and `"0"`) and `#` section headers. */
  predicate Skipped(row: string) {
    Empty(row) || row[0] == '#'
  }

  /** The `k=v` items of a comma-separated value, added in order to `base` (a later key wins). */
  function Pairs(base: map<string, Option<string>>, items: seq<string>): map<string, Option<string>>
    decreases |items|
  {
    if items == [] then base
    else
      var (k, v) := SplitFirst(items[|items| - 1], '=');
      Pairs(base, items[..|items| - 1])[k := v]
  }

  /** The pairs already held under a key, which a further comma row extends. */
  function Held(info: map<string, Field>, key: string): map<string, Option<string>> {
    if key in info && info[key].Fields? then info[key].pairs else map[]
  }

  /** What one row adds. */
  function Absorb(info: map<string, Field>, row: string): map<string, Field> {
    if Skipped(row) then info
    else
      var (key, value) := SplitFirst(row, ':');
      if value.None? || ',' !in value.value then info[key := Plain(value)]
      else info[key := Fields(Pairs(Held(info, key), Split(value.value, ',')))]
  }

  /** The parsed answer of a sequence of rows, read in order. */
  function InfoOf(rows: seq<string>): map<string, Field>
    decreases |rows|
  {
    if rows == [] then map[] else Absorb(InfoOf(rows[..|rows| - 1]), rows[|rows| - 1])
  }

  function RowKey(row: string): string {
    SplitFirst(row, ':').0
  }

  /** What a row holds on its own, independently of other rows. */
  function RowField(row: string): Field {
    var value := SplitFirst(row, ':').1;
    if value.None? || ',' !in value.value then Plain(value) else Fields(Pairs(map[], Split(value.value, ',')))
  }

  /** The answer has a key exactly for the keys of the rows not skipped. */
  lemma {:induction false} InfoKeys(rows: seq<string>, key: string)
    ensures key in InfoOf(rows) <==> exists i :: 0 <= i < |rows| && !Skipped(rows[i]) && RowKey(rows[i]) == key
    decreases |rows|
  {
    if rows != [] {
      var front := rows[..|rows| - 1];
      InfoKeys(front, key);
      assert forall i :: 0 <= i < |front| ==> front[i] == rows[i];
      if key in InfoOf(front) {
        var i :| 0 <= i < |front| && !Skipped(front[i]) && RowKey(front[i]) == key;
        assert rows[i] == front[i];
      }
    }
  }

  /** A key that only one row carries is answered with that row's own value. */
  lemma {:induction false} InfoUniqueKey(rows: seq<string>, i: nat)
    requires i < |rows| && !Skipped(rows[i])
    requires forall j :: 0 <= j < |rows| && j != i && !Skipped(rows[j]) ==> RowKey(rows[j]) != RowKey(rows[i])
    ensures RowKey(rows[i]) in InfoOf(rows) && InfoOf(rows)[RowKey(rows[i])] == RowField(rows[i])
    decreases |rows|
  {
    var key := RowKey(rows[i]);
    var front := rows[..|rows| - 1];
    assert forall j :: 0 <= j < |front| ==> front[j] == rows[j];
    if i == |rows| - 1 {
      InfoKeys(front, key);
      AbsorbNew(InfoOf(front), rows[i]);
    } else {
      InfoUniqueKey(front, i);
      AbsorbOther(InfoOf(front), rows[|rows| - 1], key);
    }
  }

  /** A row absorbed under a key not seen yet is answered with its own value. */
  lemma AbsorbNew(info: map<string, Field>, row: string)
    requires !Skipped(row) && RowKey(row) !in info
    ensures RowKey(row) in Absorb(info, row) && Absorb(info, row)[RowKey(row)] == RowField(row)
  {
  }

  /** A row that is skipped or carries another key leaves a key's value alone. */
  lemma AbsorbOther(info: map<string, Field>, row: string, key: string)
    requires Skipped(row) || RowKey(row) != key
    ensures key in Absorb(info, row) <==> key in info
    ensures key in info ==> Absorb(info, row)[key] == info[key]
  {
  }

  /** The answer to INFO: everything, or the value of one key (null when absent). */
  datatype InfoAnswer = All(info: map<string, Field>) | One(field: Option<Field>)

  /** The text INFO's reply is parsed from (a reply that is no text parses as no rows). */
  function ReplyText(r: Reply): string {
    match r
    case Bulk(s) => s
    case Line(_, s) => s
    case _ => []
  }

  /** How `multi` runs its callback: none given, or it completes or throws. */
  datatype Callback = NoCallback | Completes | Throws(error: Error)

  /**
   * The legacy client's connection: the text the server has sent on the current
   * connection and not yet read, what it will send on each later connection, every message
   * written and the number of reconnects.
   */
  class Connection {
    var input: string
    var upcoming: seq<string>
    var sent: seq<string>
    var reconnects: nat

    constructor (input: string, upcoming: seq<string>)
      ensures Cur() == Wire(input, upcoming, [], 0)
    {
      this.input := input;
      this.upcoming := upcoming;
      sent := [];
      reconnects := 0;
    }

    function Cur(): Wire
      reads this
    {
      Wire(input, upcoming, sent, reconnects)
    }

    /** buildMessage */
    method BuildMessage(command: string, args: seq<string>) returns (cmd: string)
      ensures cmd == Message(command, args)
    {
      var items := [CommandName(command)] + args;
      cmd := "*" + NatToString(|items|) + CRLF;
      var i := 0;
      while i < |items|
        invariant 0 <= i <= |items|
        invariant cmd == "*" + NatToString(|items|) + CRLF + Frames(items[..i])
      {
        var frame := "$" + NatToString(|items[i]|) + CRLF + items[i] + CRLF;
        FramesSnoc(items, i);
        AppendAssoc("*" + NatToString(|items|) + CRLF, Frames(items[..i]), frame);
        cmd := cmd + frame;
        i := i + 1;
      }
      assert items[..i] == items;
    }

    /** readLine */
    method ReadLine(first: bool) returns (r: Result<Head, Error>)
      modifies this
      ensures r == ReadLineOf(old(input), first).0
      ensures Cur() == old(Cur()).(input := ReadLineOf(old(input), first).1)
    {
      var (line, rest) := GetLine(input);
      input := rest;
      if line.None? || Empty(line.value) {
        return Failure(ClientError("Request failed"));
      }
      var body := Classify(line.value);
      if body.Raised? && first {
        return Failure(ClientError(body.message));
      }
      r := Success(Head(line.value[0], body));
    }

    /** fread: up to `n` bytes of the input. */
    method Fread(n: int) returns (chunk: string)
      modifies this
      ensures chunk == Take(old(input), n) && old(input) == chunk + input
      ensures Cur() == old(Cur()).(input := input)
    {
      chunk := Take(input, n);
      input := input[|chunk|..];
    }

    /** readResponse: chunks of at most MaxBufferSize bytes until `length` bytes are read. */
    method ReadResponse(length: int) returns (r: Result<string, Error>)
      modifies this
      ensures r == ReadBulk(old(input), length).0
      ensures Cur() == old(Cur()).(input := ReadBulk(old(input), length).1)
    {
      ghost var whole := input;
      var buffer := ReadChunks(length);
      ReadBulkOf(whole, length, buffer, input);
      if Empty(buffer) && length != 0 {
        return Failure(ClientError("Timeout"));
      }
      r := Success(buffer);
    }

    /** The read loop of readResponse: the first `length` bytes, in chunks of at most MaxBufferSize. */
    method ReadChunks(length: int) returns (buffer: string)
      modifies this
      ensures buffer == Take(old(input), length) && old(input) == buffer + input
      ensures Cur() == old(Cur()).(input := input)
    {
      buffer := [];
      var remaining := length;
      if remaining <= MaxBufferSize {
        buffer := Fread(remaining);
      } else {
        while remaining > MaxBufferSize
          invariant 0 < remaining <= length
          invariant buffer == Take(old(input), length - remaining) && old(input) == buffer + input
          invariant Cur() == old(Cur()).(input := input)
        {
          ghost var before := input;
          var chunk := Fread(MaxBufferSize);
          TakeMore(old(input), buffer, before, length - remaining, MaxBufferSize);
          AppendAssoc(buffer, chunk, input);
          buffer := buffer + chunk;
          remaining := remaining - MaxBufferSize;
        }
        ghost var before := input;
        var chunk := Fread(remaining);
        TakeMore(old(input), buffer, before, length - remaining, remaining);
        AppendAssoc(buffer, chunk, input);
        buffer := buffer + chunk;
      }
    }

    /** parseResponse */
    method ParseResponse(head: Head) returns (r: Result<Reply, Error>)
      modifies this
      ensures r == Parse(head, old(input)).0
      ensures Cur() == old(Cur()).(input := Parse(head, old(input)).1)
      decreases |input|, 2
    {
      match head.body
      case Raised(m) =>
        r := Success(Fault(m));
      case Text(s) =>
        if ParseInt(s) == -1 {
          r := Success(Nil);
        } else if head.kind == '$' {
          var line := ReadResponse(ParseInt(s) + 2);
          if line.Failure? {
            return Failure(line.error);
          }
          r := Success(Bulk(Strip(line.value)));
        } else if head.kind == '*' {
          MultiOf(head, input);
          var items := ParseItems(ParseInt(s));
          if items.Failure? {
            return Failure(items.error);
          }
          r := Success(MultiBulk(items.value));
        } else {
          r := Success(Line(head.kind, s));
        }
    }

    /** The loop of parseResponse over the `count` nested replies of a multi-bulk reply. */
    method ParseItems(count: int) returns (r: Result<seq<Reply>, Error>)
      modifies this
      ensures r == Items(old(input), count).0
      ensures Cur() == old(Cur()).(input := Items(old(input), count).1)
      decreases |input|, 1
    {
      var items: seq<Reply> := [];
      var i := 0;
      ghost var whole := Items(input, count);
      ghost var left := count;
      PrefixedNone(whole);
      assert Pending(whole, items, input, left);
      while i < count
        invariant 0 <= i && (count > 0 ==> i <= count) && left == count - i
        invariant |input| <= |old(input)|
        invariant Pending(whole, items, input, left)
        invariant Cur() == old(Cur()).(input := input)
        decreases count - i
      {
        var item := ParseNext(whole, items, left);
        if item.Failure? {
          return Failure(item.error);
        }
        items := items + [item.value];
        i := i + 1;
        left := left - 1;
      }
      ItemsNone(items, input, left);
      r := Success(items);
    }

    /** One pass of that loop: the line of the next nested reply and the reply it heads. */
    method ParseNext(ghost whole: (Result<seq<Reply>, Error>, string), items: seq<Reply>, ghost left: int)
      returns (r: Result<Reply, Error>)
      requires left > 0 && Pending(whole, items, input, left)
      modifies this
      ensures r.Failure? ==> whole == (Failure(r.error), input)
      ensures r.Success? ==> Pending(whole, items + [r.value], input, left - 1)
      ensures |input| <= |old(input)|
      ensures Cur() == old(Cur()).(input := input)
      decreases |input|, 0
    {
      ghost var here := input;
      var h := ReadLine(false);
      if h.Failure? {
        LineFails(here, left);
        return Failure(h.error);
      }
      ghost var afterLine := input;
      r := ParseResponse(h.value);
      if r.Failure? {
        ItemFails(here, left, h.value, afterLine);
        return;
      }
      ItemsMore(whole, items, here, left, h.value, afterLine, r.value, input);
    }

    /** close and connect: the next connection. */
    method Reconnect()
      modifies this
      ensures Cur() == Reconnected(old(Cur()))
    {
      if upcoming == [] {
        input := [];
      } else {
        input := upcoming[0];
        upcoming := upcoming[1..];
      }
      reconnects := reconnects + 1;
    }

    /** sendMessage and parseResponse: one attempt. */
    method Attempt(message: string) returns (r: Result<Reply, Error>)
      modifies this
      ensures (r, Cur()) == Exchange(old(Cur()), message, Receive)
    {
      sent := sent + [message];
      var response := ReadLine(true);
      if response.Failure? {
        return Failure(response.error);
      }
      r := ParseResponse(response.value);
    }

    /** send: the command lower-cased, framed, and tried until it succeeds or its attempts run out. */
    method Send(cmd: string, args: seq<string>) returns (r: Result<Reply, Error>)
      modifies this
      ensures (r, Cur()) == Deliver(old(Cur()), Message(Lower(cmd), args), Attempts(cmd), Receive)
    {
      var lowered := Lower(cmd);
      LowerIdempotent(cmd);
      var message := BuildMessage(lowered, args);
      var i := if lowered == "exec" || lowered == "discard" then 1 else MaxAttempts;
      r := Attempt(message);
      while r.Failure? && i > 1
        invariant 1 <= i <= Attempts(cmd)
        invariant Deliver(old(Cur()), message, Attempts(cmd), Receive)
                  == if r.Success? || i == 1 then (r, Cur()) else Deliver(Reconnected(Cur()), message, i - 1, Receive)
        decreases i
      {
        i := i - 1;
        Reconnect();
        r := Attempt(message);
      }
    }

    /** info: the parsed INFO answer, or the value of one key. */
    method Info(returnKey: Option<string>) returns (r: Result<InfoAnswer, Error>)
      modifies this
      ensures var (reply, w) := Deliver(old(Cur()), Message("info", []), MaxAttempts, Receive);
        && Cur() == w
        && (reply.Failure? ==> r == Failure(reply.error))
        && (reply.Success? && returnKey.None? ==> r == Success(All(InfoOf(SplitLines(ReplyText(reply.value))))))
        && (reply.Success? && returnKey.Some? ==>
              r == Success(One(var info := InfoOf(SplitLines(ReplyText(reply.value)));
                               if returnKey.value in info then Some(info[returnKey.value]) else None)))
    {
      var reply := Send("info", []);
      CommandWords();
      if reply.Failure? {
        return Failure(reply.error);
      }
      var info := ParseInfo(SplitLines(ReplyText(reply.value)));
      if returnKey.None? {
        return Success(All(info));
      }
      r := Success(One(if returnKey.value in info then Some(info[returnKey.value]) else None));
    }

    /** The loop of info over the rows of the answer. */
    method ParseInfo(rows: seq<string>) returns (info: map<string, Field>)
      ensures info == InfoOf(rows)
    {
      info := map[];
      var n := 0;
      while n < |rows|
        invariant 0 <= n <= |rows|
        invariant info == InfoOf(rows[..n])
      {
        var row := rows[n];
        assert rows[..n + 1][..n] == rows[..n];
        if !Skipped(row) {
          var (key, value) := SplitFirst(row, ':');
          if value.None? || ',' !in value.value {
            info := info[key := Plain(value)];
          } else {
            var pairs := ParsePairs(Held(info, key), Split(value.value, ','));
            info := info[key := Fields(pairs)];
          }
        }
        n := n + 1;
      }
      assert rows[..n] == rows;
    }

    /** The inner loop of info: the `name=value` items of one row, each overriding the last. */
    static method ParsePairs(held: map<string, Option<string>>, items: seq<string>) returns (pairs: map<string, Option<string>>)
      ensures pairs == Pairs(held, items)
    {
      pairs := held;
      var j := 0;
      while j < |items|
        invariant 0 <= j <= |items|
        invariant pairs == Pairs(held, items[..j])
      {
        assert items[..j + 1][..j] == items[..j];
        var (k, v) := SplitFirst(items[j], '=');
        pairs := pairs[k := v];
        j := j + 1;
      }
      assert items[..j] == items;
    }

    /** exec: a null answer means the transaction was aborted. */
    method Exec() returns (r: Result<Reply, Error>)
      modifies this
      ensures var (reply, w) := Deliver(old(Cur()), Message("exec", []), 1, Receive);
        Cur() == w && r == if reply == Success(Nil) then Failure(TransactionAborted) else reply
    {
      r := Send("exec", []);
      CommandWords();
      if r == Success(Nil) {
        r := Failure(TransactionAborted);
      }
    }

    /**
     * multi: opens the transaction; with a callback, runs it and executes the transaction.
     * A RedisClientException from the callback or from exec, a TransactionException or a
     * LockException included, is rethrown as it is; any other exception first discards the
     * transaction (a failing discard throws its own error).
     */
    method Multi(callback: Callback) returns (r: Result<Reply, Error>)
      modifies this
      ensures var (ok, w1) := Deliver(old(Cur()), Message("multi", []), MaxAttempts, Receive);
        && (ok.Failure? || callback.NoCallback? ==> r == ok && Cur() == w1)
        && (ok.Success? && callback.Throws? && IsClientError(callback.error) ==> r == Failure(callback.error) && Cur() == w1)
        && (ok.Success? && callback.Throws? && !IsClientError(callback.error) ==>
              var (d, w2) := Deliver(w1, Message("discard", []), 1, Receive);
              Cur() == w2 && r == if d.Failure? then d else Failure(callback.error))
        && (ok.Success? && callback.Completes? ==>
              var (e, w2) := Deliver(w1, Message("exec", []), 1, Receive);
              var x := if e == Success(Nil) then Failure(TransactionAborted) else e;
              && (x.Success? || IsClientError(x.error) ==> r == x && Cur() == w2)
              && (x.Failure? && !IsClientError(x.error) ==>
                    var (d, w3) := Deliver(w2, Message("discard", []), 1, Receive);
                    Cur() == w3 && r == if d.Failure? then d else x))
    {
      var ok := Send("multi", []);
      CommandWords();
      if ok.Failure? || callback.NoCallback? {
        return ok;
      }
      var e: Error;
      if callback.Completes? {
        var x := Exec();
        if x.Success? {
          return x;
        }
        e := x.error;
      } else {
        e := callback.error;
      }
      if IsClientError(e) {
        return Failure(e);
      }
      var d := Send("discard", []);
      if d.Failure? {
        return d;
      }
      r := Failure(e);
    }
  }
}
