/** The SSE read loop of the chat page: append, split on a blank line, keep the tail. */
module SseClient {
  import opened Texts

  // ----- String.prototype.split, as the loop uses it -----

  /** The first blank line at or after `i`, or the end of the text. */
  function Separator(s: string, i: nat): (k: nat)
    requires i <= |s|
    ensures i <= k <= |s|
    decreases |s| - i
  {
    if i + 2 <= |s| && s[i] == '\n' && s[i+1] == '\n' then i
    else if i == |s| then i
    else Separator(s, i + 1)
  }

  /** `s.split("\n\n")` */
  function Split(s: string): (parts: seq<string>)
    ensures parts != []
    decreases |s|
  {
    var k := Separator(s, 0);
    if k == |s| then [s] else SeparatorFound(s, 0); [s[..k]] + Split(s[k+2..])
  }

  /** The parts before the tail, and the tail that `pop` takes. */
  function Complete(s: string): seq<string> { Split(s)[..|Split(s)|-1] }

  function Tail(s: string): string { Last(Split(s)) }

  lemma {:induction false} SeparatorFound(s: string, i: nat)
    requires i <= |s| && Separator(s, i) < |s|
    ensures var k := Separator(s, i); k + 2 <= |s| && s[k] == '\n' && s[k+1] == '\n'
    decreases |s| - i
  {
    if i + 2 <= |s| && s[i] == '\n' && s[i+1] == '\n' {
    } else {
      SeparatorFound(s, i + 1);
    }
  }

  /** A blank line that is complete stays the first one when more text arrives. */
  lemma {:induction false} SeparatorStays(s: string, more: string, i: nat)
    requires i <= |s| && Separator(s, i) < |s|
    ensures Separator(s + more, i) == Separator(s, i)
    decreases |s| - i
  {
    var t := s + more;
    assert t[i] == s[i];
    if i + 2 <= |s| {
      assert t[i+1] == s[i+1];
    }
    if !(i + 2 <= |s| && s[i] == '\n' && s[i+1] == '\n') {
      SeparatorStays(s, more, i + 1);
      SeparatorFound(s, i + 1);
    }
  }

  /** Splitting what is buffered and then the tail with the new text is splitting all of it. */
  lemma {:induction false} SplitMore(s: string, more: string)
    ensures Split(s + more) == Complete(s) + Split(Tail(s) + more)
    decreases |s|
  {
    var k := Separator(s, 0);
    if k == |s| {
      assert Complete(s) == [] && Tail(s) == s;
    } else {
      SeparatorFound(s, 0);
      SeparatorStays(s, more, 0);
      var rest := s[k+2..];
      assert (s + more)[..k] == s[..k] && (s + more)[k+2..] == rest + more;
      SplitMore(rest, more);
      assert Split(s) == [s[..k]] + Split(rest);
      assert Complete(s) == [s[..k]] + Complete(rest);
      assert Tail(s) == Tail(rest);
      Assoc([s[..k]], Complete(rest), Split(Tail(rest) + more));
    }
  }

  lemma SplitLater(s: string, more: string)
    ensures Complete(s + more) == Complete(s) + Complete(Tail(s) + more)
    ensures Tail(s + more) == Tail(Tail(s) + more)
  {
    SplitMore(s, more);
  }

  // ----- one event -----

  /** `event.split("\n")` */
  function Lines(s: string): (lines: seq<string>)
    ensures lines != []
  {
    if s == "" then [""]
    else if s[0] == '\n' then [""] + Lines(s[1..])
    else var rest := Lines(s[1..]); [[s[0]] + rest[0]] + rest[1..]
  }

  const PREFIX := "data: "

  /** The payload of the first data line, if there is one. */
  function DataLine(lines: seq<string>): (payload: seq<string>)
    ensures |payload| <= 1
  {
    if lines == [] then []
    else if PREFIX <= lines[0] then [lines[0][6..]]
    else DataLine(lines[1..])
  }

  /** The payloads of the events, in order; events without a data line give none. */
  function Payloads(events: seq<string>): seq<string> {
    if events == [] then []
    else Payloads(events[..|events|-1]) + DataLine(Lines(events[|events|-1]))
  }

  lemma {:induction false} PayloadsAppend(a: seq<string>, b: seq<string>)
    ensures Payloads(a + b) == Payloads(a) + Payloads(b)
  {
    if b == [] {
      assert a + b == a;
    } else {
      var init := b[..|b|-1];
      assert (a + b)[..|a + b|-1] == a + init;
      PayloadsAppend(a, init);
      Assoc(Payloads(a), Payloads(init), DataLine(Lines(b[|b|-1])));
    }
  }

  // ----- what splitting means -----

  /** The parts with the separator between them. */
  function Joined(parts: seq<string>, separator: string): string {
    if parts == [] then "" else if |parts| == 1 then parts[0] else parts[0] + separator + Joined(parts[1..], separator)
  }

  predicate HasBlankLine(s: string) { exists i :: 0 <= i < |s| - 1 && s[i] == '\n' && s[i+1] == '\n' }

  lemma {:induction false} NoneBefore(s: string, i: nat)
    requires i <= |s|
    ensures forall j :: i <= j < Separator(s, i) && j < |s| - 1 ==> !(s[j] == '\n' && s[j+1] == '\n')
    decreases |s| - i
  {
    if i == |s| || (i + 2 <= |s| && s[i] == '\n' && s[i+1] == '\n') {
    } else {
      NoneBefore(s, i + 1);
    }
  }

  /** The parts make up the text again, and none of them has a blank line in it. */
  lemma {:induction false} SplitJoins(s: string)
    ensures Joined(Split(s), "\n\n") == s
    ensures forall i :: 0 <= i < |Split(s)| ==> !HasBlankLine(Split(s)[i])
    decreases |s|
  {
    var k := Separator(s, 0);
    NoneBefore(s, 0);
    if k == |s| {
    } else {
      SeparatorFound(s, 0);
      SplitJoins(s[k+2..]);
      assert s == s[..k] + "\n\n" + s[k+2..];
      assert Split(s) == [s[..k]] + Split(s[k+2..]);
    }
  }

  /** The lines make up the event again, and none of them has a newline in it. */
  lemma {:induction false} LinesJoin(s: string)
    ensures Joined(Lines(s), "\n") == s
    ensures forall i :: 0 <= i < |Lines(s)| ==> NoNewline(Lines(s)[i])
  {
    if s == "" {
    } else {
      var rest := Lines(s[1..]);
      LinesJoin(s[1..]);
      assert s == [s[0]] + s[1..];
      if s[0] == '\n' {
        assert ([""] + rest)[1..] == rest;
        assert "" + "\n" + Joined(rest, "\n") == ['\n'] + s[1..];
      } else {
        LongerFirst(s[0], rest);
      }
    }
  }

  lemma LongerFirst(c: char, rest: seq<string>)
    requires rest != []
    ensures Joined([[c] + rest[0]] + rest[1..], "\n") == [c] + Joined(rest, "\n")
  {
    assert ([[c] + rest[0]] + rest[1..])[1..] == rest[1..];
    if |rest| > 1 {
      Assoc([c], rest[0] + "\n", Joined(rest[1..], "\n"));
      Assoc([c], rest[0], "\n");
    }
  }

  /** The payload is what follows "data: " on the first line that begins with it. */
  lemma {:induction false} DataLineIsFirst(before: seq<string>, rest: string, after: seq<string>)
    requires forall i :: 0 <= i < |before| ==> !("data: " <= before[i])
    ensures DataLine(before + ["data: " + rest] + after) == [rest]
    ensures DataLine(before) == []
  {
    var all := before + ["data: " + rest] + after;
    if before == [] {
      assert all[0] == "data: " + rest && all[0][6..] == rest;
    } else {
      assert all[1..] == before[1..] + ["data: " + rest] + after && all[0] == before[0];
      DataLineIsFirst(before[1..], rest, after);
    }
  }

  // ----- the wire -----

  predicate NoNewline(s: string) { forall i :: 0 <= i < |s| ==> s[i] != '\n' }

  /** `"data: " + payload + "\n\n"`, one frame after the other. */
  function Wire(payloads: seq<string>): string {
    if payloads == [] then "" else PREFIX + payloads[0] + "\n\n" + Wire(payloads[1..])
  }

  lemma {:induction false} OneLine(s: string)
    requires NoNewline(s)
    ensures Lines(s) == [s]
  {
    if s == "" {
    } else {
      OneLine(s[1..]);
      assert [s[0]] + s[1..] == s;
    }
  }

  lemma {:induction false} SeparatorAfterLine(line: string, rest: string, i: nat)
    requires NoNewline(line) && i <= |line|
    ensures Separator(line + "\n\n" + rest, i) == |line|
    decreases |line| - i
  {
    var s := line + "\n\n" + rest;
    if i < |line| {
      assert s[i] == line[i];
      SeparatorAfterLine(line, rest, i + 1);
    } else {
      assert s[i] == '\n' && s[i+1] == '\n';
    }
  }

  /** One frame on the wire. */
  lemma OnTheWire(payload: string)
    ensures Wire([payload]) == "data: " + payload + "\n\n"
  {
    assert [payload][1..] == [];
  }

  /** The wire text splits into its frames and an empty tail. */
  lemma {:induction false} WireSplits(payloads: seq<string>)
    requires forall i :: 0 <= i < |payloads| ==> NoNewline(payloads[i])
    ensures Payloads(Complete(Wire(payloads))) == payloads
    ensures Tail(Wire(payloads)) == ""
  {
    if payloads == [] {
    } else {
      var line, rest := PREFIX + payloads[0], Wire(payloads[1..]);
      var s := line + "\n\n" + rest;
      assert NoNewline(line) by {
        assert forall i :: 6 <= i < |line| ==> line[i] == payloads[0][i - 6];
      }
      SeparatorAfterLine(line, rest, 0);
      assert s[..|line|] == line && s[|line|+2..] == rest;
      WireSplits(payloads[1..]);
      assert Complete(s) == [line] + Complete(rest);
      PayloadsAppend([line], Complete(rest));
      OneLine(line);
      assert line[6..] == payloads[0];
      assert Payloads([line]) == [payloads[0]] by { assert [line][..0] == []; }
    }
  }

  // ----- the read loop -----

  /** The payloads found so far, and the tail that is kept. */
  datatype Received = Received(payloads: seq<string>, buffer: string)

  /** One turn of the loop: append the chunk, split, keep the last part. */
  function Receive(r: Received, chunk: string): Received {
    Received(r.payloads + Payloads(Complete(r.buffer + chunk)), Tail(r.buffer + chunk))
  }

  function ReceiveAll(chunks: seq<string>): Received {
    if chunks == [] then Received([], "")
    else Receive(ReceiveAll(chunks[..|chunks|-1]), chunks[|chunks|-1])
  }

  /** After any chunks the loop has found what splitting all their text at once finds. */
  lemma {:induction false} ReceivedSoFar(chunks: seq<string>)
    ensures ReceiveAll(chunks) == Received(Payloads(Complete(Concat(chunks))), Tail(Concat(chunks)))
  {
    if chunks == [] {
      assert Split("") == [""];
    } else {
      var init, chunk := chunks[..|chunks|-1], chunks[|chunks|-1];
      ReceivedSoFar(init);
      SplitLater(Concat(init), chunk);
      PayloadsAppend(Complete(Concat(init)), Complete(Tail(Concat(init)) + chunk));
    }
  }

  /** Whatever the chunking, the loop ends with the payloads that were sent, once each and in
      order, and keeps nothing. */
  lemma FramesRecovered(payloads: seq<string>, chunks: seq<string>)
    requires forall i :: 0 <= i < |payloads| ==> NoNewline(payloads[i])
    requires Concat(chunks) == Wire(payloads)
    ensures ReceiveAll(chunks) == Received(payloads, "")
  {
    ReceivedSoFar(chunks);
    WireSplits(payloads);
  }
}
