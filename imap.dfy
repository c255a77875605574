/** The IMAP exchange of `RetrieveMessages` (Program.cs), over a TLS stream
    reduced to a scripted peer: the server's replies wait in a queue of
    segments, and everything read or written is appended to a transcript.
    The commands are those of RFC 3501 (CAPABILITY, section 6.1.1;
    AUTHENTICATE, section 6.2.2, with the initial response of RFC 4959;
    STATUS, section 6.3.10; LOGOUT, section 6.1.3), all with the tag `$`. */
module Imap {
  import opened Basics
  import XOAuth2

  /** The size of the buffer of `ReadSSLStream`: one read returns at most this. */
  const BufferSize: nat := 2048

  /** `Environment.NewLine`, fixed here as CR LF. */
  const NewLine: string := "\r\n"

  const Capability: string := "$ CAPABILITY"
  const Status: string := "$ STATUS INBOX (unseen)"
  const Logout: string := "$ LOGOUT"

  /** The prefix of a reply that rejects the AUTHENTICATE command. */
  const Rejection: string := "$ NO AUTHENTICATE"

  function Authenticate(blob: string): (s: string)
  {
    "$ AUTHENTICATE XOAUTH2 " + blob
  }

  /** `Encoding.ASCII.GetBytes`: each character below U+0080 becomes its
      code, every other character one replacement octet `?` (0x3F); a
      surrogate pair, like any other scalar value, gets one replacement. */
  function AsciiEncode(s: string): (b: seq<byte>)
    ensures |b| == |s| && forall i :: 0 <= i < |b| ==> b[i] < 0x80
  {
    seq(|s|, i requires 0 <= i < |s| => if s[i] < 0x80 as char then s[i] as int else 0x3F)
  }

  /** `Encoding.ASCII.GetString`: each octet below 0x80 becomes that
      character, every other octet the replacement character `?`. */
  function AsciiDecode(b: seq<byte>): (s: string)
    ensures |s| == |b| && IsAscii(s)
  {
    seq(|b|, i requires 0 <= i < |b| => if b[i] < 0x80 then b[i] as char else '?')
  }

  /** The ASCII codec gives a string back exactly when it is ASCII: any other
      character is lost to the replacement `?`. */
  lemma AsciiRoundTrip(s: string)
    ensures AsciiDecode(AsciiEncode(s)) == s <==> IsAscii(s)
  {
    if !IsAscii(s) {
      var i :| 0 <= i < |s| && !(s[i] < 0x80 as char);
      assert AsciiDecode(AsciiEncode(s))[i] == '?' != s[i];
    }
  }

  /** What a read returns is ASCII text, one character per octet, and it
      re-encodes to the octets read when they were all below 0x80. */
  lemma AsciiDecodeFaithful(b: seq<byte>)
    ensures |AsciiDecode(b)| == |b| && IsAscii(AsciiDecode(b))
    ensures (forall i :: 0 <= i < |b| ==> b[i] < 0x80) <==> AsciiEncode(AsciiDecode(b)) == b
  {
    if exists i :: 0 <= i < |b| && !(b[i] < 0x80) {
      var i :| 0 <= i < |b| && !(b[i] < 0x80);
      assert AsciiEncode(AsciiDecode(b))[i] == 0x3F != b[i];
    }
  }

  /** The octets `WriteSSLStream` sends for a command: its text and the line
      terminator. */
  function Line(command: string): (b: seq<byte>)
    ensures |b| == |command| + |NewLine|
  {
    AsciiEncode(command + NewLine)
  }

  /** One step of the transcript: octets written to the stream, or octets
      returned by one read of it. */
  datatype Event = Sent(data: seq<byte>) | Received(data: seq<byte>)

  /** The octets one read returns, and the segments still queued after it. */
  datatype Chunk = Chunk(data: seq<byte>, rest: seq<seq<byte>>)

  /** One `Stream.Read` of at most `count` octets from the queue of segments
      the peer has sent: the start of the first segment, the rest of which
      stays queued. An empty queue, or an empty segment, gives a read of no
      octets; after an empty segment, later segments may still arrive. */
  function Receive(inbound: seq<seq<byte>>, count: nat): (r: Chunk)
    ensures |r.data| <= count
    ensures r.data + Flatten(r.rest) == Flatten(inbound)
    ensures r.data == [] <==> inbound == [] || inbound[0] == [] || count == 0
  {
    if inbound == [] then Chunk([], [])
    else if |inbound[0]| <= count then Chunk(inbound[0], inbound[1..])
    else
      FlattenAppend([inbound[0][count..]], inbound[1..]);
      assert inbound[0] == inbound[0][..count] + inbound[0][count..];
      Chunk(inbound[0][..count], [inbound[0][count..]] + inbound[1..])
  }

  /** Events appended to the transcript, and the segments still queued. */
  datatype Run = Run(events: seq<Event>, rest: seq<seq<byte>>)

  /** A command written with `WriteSSLStream`, then the one read of its
      reply with `ReadSSLStream`. */
  function Exchange(inbound: seq<seq<byte>>, command: string): (r: Run)
    ensures |r.events| == 2 && r.events[0] == Sent(Line(command)) && r.events[1].Received?
    ensures |r.events[1].data| <= BufferSize
    ensures r.events[1].data + Flatten(r.rest) == Flatten(inbound)
  {
    var reply := Receive(inbound, BufferSize);
    Run([Sent(Line(command)), Received(reply.data)], reply.rest)
  }

  /** The start of `RetrieveMessages`: the banner read, then CAPABILITY and
      AUTHENTICATE with the XOAUTH2 response, each followed by one read. */
  function Opening(inbound: seq<seq<byte>>, blob: string): (r: Run)
    ensures |r.events| == 5 && r.events[4].Received?
  {
    var banner := Receive(inbound, BufferSize);
    var capability := Exchange(banner.rest, Capability);
    var authenticate := Exchange(capability.rest, Authenticate(blob));
    Run([Received(banner.data)] + capability.events + authenticate.events, authenticate.rest)
  }

  /** The whole exchange of `RetrieveMessages` against the queued replies:
      the opening, then STATUS and LOGOUT unless the AUTHENTICATE reply starts
      with `$ NO AUTHENTICATE`. */
  function Conversation(inbound: seq<seq<byte>>, blob: string): (r: Run)
    ensures |r.events| == 5 || |r.events| == 9
  {
    var opening := Opening(inbound, blob);
    if StartsWith(AsciiDecode(opening.events[4].data), Rejection) then
      opening
    else
      var status := Exchange(opening.rest, Status);
      var logout := Exchange(status.rest, Logout);
      Run(opening.events + status.events + logout.events, logout.rest)
  }

  /** The command lines of a transcript, as text, in the order written. */
  function Commands(events: seq<Event>): (r: seq<string>)
  {
    if events == [] then []
    else (if events[0].Sent? then [AsciiDecode(events[0].data)] else []) + Commands(events[1..])
  }

  /** What each read of a transcript returned, in order. */
  function Replies(events: seq<Event>): (r: seq<seq<byte>>)
  {
    if events == [] then []
    else (if events[0].Received? then [events[0].data] else []) + Replies(events[1..])
  }

  /** A read first, then a write and a read, a write and a read, ... so
      every write is followed by exactly one read. */
  predicate Alternating(events: seq<Event>)
  {
    |events| % 2 == 1 && forall i :: 0 <= i < |events| ==> (events[i].Received? <==> i % 2 == 0)
  }

  /** The AUTHENTICATE reply (the third read) starts with `$ NO AUTHENTICATE`. */
  predicate Rejected(events: seq<Event>)
  {
    |events| >= 5 && events[4].Received? && StartsWith(AsciiDecode(events[4].data), Rejection)
  }

  lemma {:induction false} CommandsAppend(a: seq<Event>, b: seq<Event>)
    ensures Commands(a + b) == Commands(a) + Commands(b)
  {
    if a != [] {
      assert (a + b)[1..] == a[1..] + b;
      CommandsAppend(a[1..], b);
    } else {
      assert a + b == b;
    }
  }

  lemma {:induction false} RepliesAppend(a: seq<Event>, b: seq<Event>)
    ensures Replies(a + b) == Replies(a) + Replies(b)
  {
    if a != [] {
      assert (a + b)[1..] == a[1..] + b;
      RepliesAppend(a[1..], b);
    } else {
      assert a + b == b;
    }
  }

  /** A command whose text is ASCII goes out exactly as written, followed
      by the line terminator. */
  lemma LineFaithful(command: string)
    requires IsAscii(command)
    ensures AsciiDecode(Line(command)) == command + NewLine
  {
    assert IsAscii(command + NewLine);
    AsciiRoundTrip(command + NewLine);
  }

  lemma FixedCommandsAscii()
    ensures IsAscii(Capability) && IsAscii(Status) && IsAscii(Logout)
    ensures IsAscii("$ AUTHENTICATE XOAUTH2 ")
  {
  }

  /** One exchange writes one line and then reads once, consuming from the
      queue exactly the octets of its reply. */
  lemma ExchangeFacts(inbound: seq<seq<byte>>, command: string)
    ensures var x := Exchange(inbound, command);
            && |x.events| == 2 && x.events[0].Sent? && x.events[1].Received?
            && Commands(x.events) == [AsciiDecode(Line(command))]
            && Replies(x.events) == [x.events[1].data]
            && |x.events[1].data| <= BufferSize
            && x.events[1].data + Flatten(x.rest) == Flatten(inbound)
  {
    var events := Exchange(inbound, command).events;
    var tail := events[1..];
    assert tail == [events[1]] && tail[1..] == [];
    assert Commands(tail) == [] && Replies(tail) == [events[1].data];
  }

  /** The commands sent, for any script: `$ CAPABILITY`, then the
      AUTHENTICATE line with the XOAUTH2 response, then, unless the
      AUTHENTICATE reply starts with `$ NO AUTHENTICATE`, `$ STATUS INBOX
      (unseen)` and `$ LOGOUT`; each exactly as written, followed by the line
      terminator. */
  lemma ConversationCommands(inbound: seq<seq<byte>>, auth: XOAuth2.AuthenticationResult)
    ensures var blob := XOAuth2.XOauth2(auth);
            var events := Conversation(inbound, blob).events;
            (Commands(events)
               == [Capability + NewLine, Authenticate(blob) + NewLine]
                + (if Rejected(events) then [] else [Status + NewLine, Logout + NewLine]))
  {
    var blob := XOAuth2.XOauth2(auth);
    assert IsAscii(Authenticate(blob)) by {
      XOAuth2.XOauth2Shape(auth);
      FixedCommandsAscii();
    }
    LineFaithful(Authenticate(blob));
    CommandsOfAscii(inbound, blob);
  }

  /** The same for any response text whose AUTHENTICATE line goes out as
      written. */
  lemma CommandsOfAscii(inbound: seq<seq<byte>>, blob: string)
    requires AsciiDecode(Line(Authenticate(blob))) == Authenticate(blob) + NewLine
    ensures var events := Conversation(inbound, blob).events;
            (Commands(events)
               == [Capability + NewLine, Authenticate(blob) + NewLine]
                + (if Rejected(events) then [] else [Status + NewLine, Logout + NewLine]))
  {
    OpeningCommands(inbound, blob);
    var opening := Opening(inbound, blob);
    if !Rejected(Conversation(inbound, blob).events) {
      ClosingCommands(opening.events, opening.rest);
    }
  }

  /** The banner read, CAPABILITY and AUTHENTICATE write those two lines. */
  lemma OpeningCommands(inbound: seq<seq<byte>>, blob: string)
    requires AsciiDecode(Line(Authenticate(blob))) == Authenticate(blob) + NewLine
    ensures Commands(Opening(inbound, blob).events) == [Capability + NewLine, Authenticate(blob) + NewLine]
  {
    var banner := Receive(inbound, BufferSize);
    var capability := Exchange(banner.rest, Capability);
    var authenticate := Exchange(capability.rest, Authenticate(blob));
    var first := [Received(banner.data)];
    FixedLines();
    ExchangeCommand(banner.rest, Capability);
    ExchangeCommand(capability.rest, Authenticate(blob));
    assert Commands(first[1..]) == [];
    CommandsAppend(first + capability.events, authenticate.events);
    CommandsAppend(first, capability.events);
  }

  /** STATUS and LOGOUT, after any transcript, add those two lines. */
  lemma ClosingCommands(opening: seq<Event>, inbound: seq<seq<byte>>)
    ensures var status := Exchange(inbound, Status);
            var logout := Exchange(status.rest, Logout);
            Commands(opening + status.events + logout.events)
              == Commands(opening) + [Status + NewLine, Logout + NewLine]
  {
    var status := Exchange(inbound, Status);
    var logout := Exchange(status.rest, Logout);
    FixedLines();
    ExchangeCommand(inbound, Status);
    ExchangeCommand(status.rest, Logout);
    CommandsAppend(opening + status.events, logout.events);
    CommandsAppend(opening, status.events);
  }

  /** An exchange of an ASCII command writes that one line. */
  lemma ExchangeCommand(inbound: seq<seq<byte>>, command: string)
    requires AsciiDecode(Line(command)) == command + NewLine
    ensures Commands(Exchange(inbound, command).events) == [command + NewLine]
  {
    ExchangeFacts(inbound, command);
  }

  /** The fixed commands go out exactly as written. */
  lemma FixedLines()
    ensures AsciiDecode(Line(Capability)) == Capability + NewLine
    ensures AsciiDecode(Line(Status)) == Status + NewLine
    ensures AsciiDecode(Line(Logout)) == Logout + NewLine
  {
    FixedCommandsAscii();
    LineFaithful(Capability);
    LineFaithful(Status);
    LineFaithful(Logout);
  }

  /** On the rejected path nothing follows AUTHENTICATE: neither STATUS nor
      LOGOUT is sent. */
  lemma RejectedSendsNoLogout(inbound: seq<seq<byte>>, auth: XOAuth2.AuthenticationResult)
    requires Rejected(Conversation(inbound, XOAuth2.XOauth2(auth)).events)
    ensures var cs := Commands(Conversation(inbound, XOAuth2.XOauth2(auth)).events);
            |cs| == 2 && Logout + NewLine !in cs && Status + NewLine !in cs
  {
    ConversationCommands(inbound, auth);
    DistinctLines(XOAuth2.XOauth2(auth));
  }

  /** CAPABILITY and AUTHENTICATE lines differ from STATUS and LOGOUT lines
      in their third character. */
  lemma DistinctLines(blob: string)
    ensures Capability + NewLine != Status + NewLine && Capability + NewLine != Logout + NewLine
    ensures Authenticate(blob) + NewLine != Status + NewLine
    ensures Authenticate(blob) + NewLine != Logout + NewLine
  {
    assert (Capability + NewLine)[2] == 'C';
    assert (Authenticate(blob) + NewLine)[2] == 'A';
    assert (Status + NewLine)[2] == 'S';
    assert (Logout + NewLine)[2] == 'L';
  }

  /** Appending one exchange to a transcript adds one command and one reply,
      keeps reads and writes alternating, and moves the reply's octets from
      the queue to the replies. */
  lemma ExchangeStep(before: seq<Event>, inbound: seq<seq<byte>>, command: string)
    ensures var x := Exchange(inbound, command);
            var after := before + x.events;
            && (Alternating(before) ==> Alternating(after))
            && |Commands(after)| == |Commands(before)| + 1
            && Replies(after) == Replies(before) + [x.events[1].data]
            && |x.events[1].data| <= BufferSize
            && Flatten(Replies(after)) + Flatten(x.rest) == Flatten(Replies(before)) + Flatten(inbound)
  {
    var x := Exchange(inbound, command);
    var after := before + x.events;
    ExchangeFacts(inbound, command);
    if Alternating(before) {
      AlternatingStep(before, x.events);
    }
    assert |Commands(after)| == |Commands(before)| + 1 by {
      CommandsAppend(before, x.events);
    }
    assert Replies(after) == Replies(before) + [x.events[1].data] by {
      RepliesAppend(before, x.events);
    }
    assert Flatten(Replies(before) + [x.events[1].data]) == Flatten(Replies(before)) + x.events[1].data by {
      FlattenAppend(Replies(before), [x.events[1].data]);
      assert [x.events[1].data][1..] == [];
    }
  }

  /** A write and then a read, after an alternating transcript, keep it
      alternating. */
  lemma AlternatingStep(before: seq<Event>, e: seq<Event>)
    requires Alternating(before) && |e| == 2 && e[0].Sent? && e[1].Received?
    ensures Alternating(before + e)
  {
    var n := |before|;
    DivMod(n / 2, 2, 1);
    DivMod(n / 2 + 1, 2, 0);
    DivMod(n / 2 + 1, 2, 1);
  }

  /** The transcript after the banner read alone. */
  lemma BannerFacts(inbound: seq<seq<byte>>)
    ensures var first := [Received(Receive(inbound, BufferSize).data)];
            && Alternating(first) && Commands(first) == []
            && Replies(first) == [first[0].data]
            && Flatten(Replies(first)) + Flatten(Receive(inbound, BufferSize).rest) == Flatten(inbound)
  {
    var first := [Received(Receive(inbound, BufferSize).data)];
    assert first[1..] == [];
    assert Flatten([first[0].data]) == first[0].data + Flatten([]);
  }

  /** Reads and writes alternate, starting with the banner read: 3 reads and
      2 writes when AUTHENTICATE is rejected, 5 reads and 4 writes otherwise;
      and the reads consume the peer's octets in order, at most 2048 each,
      losing and inventing nothing: what was read followed by what is still
      queued is exactly what was queued. */
  lemma ConversationReads(inbound: seq<seq<byte>>, blob: string)
    ensures var run := Conversation(inbound, blob);
            && Alternating(run.events)
            && (Rejected(run.events) ==> |Replies(run.events)| == 3 && |Commands(run.events)| == 2)
            && (!Rejected(run.events) ==> |Replies(run.events)| == 5 && |Commands(run.events)| == 4)
            && Flatten(Replies(run.events)) + Flatten(run.rest) == Flatten(inbound)
            && ReadsFit(Replies(run.events))
  {
    OpeningReads(inbound, blob);
    var opening := Opening(inbound, blob);
    if !Rejected(Conversation(inbound, blob).events) {
      ClosingReads(opening.events, opening.rest);
    }
  }

  /** Every read returned at most the buffer size. */
  predicate ReadsFit(replies: seq<seq<byte>>)
  {
    forall k :: 0 <= k < |replies| ==> |replies[k]| <= BufferSize
  }

  /** The banner read, CAPABILITY and AUTHENTICATE: three reads around two
      writes, consuming the start of the queue. */
  lemma OpeningReads(inbound: seq<seq<byte>>, blob: string)
    ensures var opening := Opening(inbound, blob);
            && Alternating(opening.events)
            && |Replies(opening.events)| == 3 && |Commands(opening.events)| == 2
            && Flatten(Replies(opening.events)) + Flatten(opening.rest) == Flatten(inbound)
            && ReadsFit(Replies(opening.events))
  {
    var banner := Receive(inbound, BufferSize);
    var capability := Exchange(banner.rest, Capability);
    var first := [Received(banner.data)];
    BannerFacts(inbound);
    ExchangeStep(first, banner.rest, Capability);
    ExchangeStep(first + capability.events, capability.rest, Authenticate(blob));
  }

  /** STATUS and LOGOUT after any alternating transcript: two more writes
      and reads, consuming the next octets of the queue. */
  lemma ClosingReads(opening: seq<Event>, inbound: seq<seq<byte>>)
    requires Alternating(opening)
    ensures var status := Exchange(inbound, Status);
            var logout := Exchange(status.rest, Logout);
            var events := opening + status.events + logout.events;
            && Alternating(events)
            && |Replies(events)| == |Replies(opening)| + 2
            && |Commands(events)| == |Commands(opening)| + 2
            && Flatten(Replies(events)) + Flatten(logout.rest) == Flatten(Replies(opening)) + Flatten(inbound)
            && (ReadsFit(Replies(opening)) ==> ReadsFit(Replies(events)))
  {
    var status := Exchange(inbound, Status);
    ExchangeStep(opening, inbound, Status);
    ExchangeStep(opening + status.events, status.rest, Logout);
  }

  /** A write and a read appended one at a time to `start + done` give
      `start` followed by `done` and the exchange. */
  lemma Regroup(start: seq<Event>, done: seq<Event>, exchange: seq<Event>)
    requires |exchange| == 2
    ensures start + done + [exchange[0]] + [exchange[1]] == start + (done + exchange)
  {
  }

  /** The TLS stream of the sample, as seen by the IMAP exchange: the octets
      the peer has sent and not yet been read, and the transcript of every
      read and write so far. */
  class Session {
    var inbound: seq<seq<byte>>
    var transcript: seq<Event>

    /** A connected stream whose peer will send the segments of `script`. */
    constructor (script: seq<seq<byte>>)
      ensures inbound == script && transcript == []
    {
      inbound := script;
      transcript := [];
    }

    /** `Stream.Read(buffer, 0, buffer.Length)`: copies the octets of one
      receive into the start of `buffer` and returns how many. */
    method Read(buffer: array<byte>) returns (n: nat)
      modifies this, buffer
      ensures var got := Receive(old(inbound), buffer.Length);
              && n == |got.data| && buffer[..n] == got.data
              && buffer[n..] == old(buffer[n..])
              && inbound == got.rest
              && transcript == old(transcript) + [Received(got.data)]
    {
      var got := Receive(inbound, buffer.Length);
      n := |got.data|;
      forall i | 0 <= i < n {
        buffer[i] := got.data[i];
      }
      inbound := got.rest;
      transcript := transcript + [Received(got.data)];
    }

    /** `Stream.Write` followed by `Flush`: the octets go out whole. */
    method Write(data: seq<byte>)
      modifies this
      ensures inbound == old(inbound)
      ensures transcript == old(transcript) + [Sent(data)]
    {
      transcript := transcript + [Sent(data)];
    }

    /** One read into a fresh 2048-octet buffer, decoded as ASCII from
      exactly the octets received. */
    method ReadSSLStream() returns (response: string)
      modifies this
      ensures var got := Receive(old(inbound), BufferSize);
              && response == AsciiDecode(got.data)
              && |response| == |got.data| <= BufferSize
              && inbound == got.rest
              && transcript == old(transcript) + [Received(got.data)]
    {
      var buffer := new byte[BufferSize];
      var bytes := Read(buffer);
      response := AsciiDecode(buffer[..bytes]);
    }

    /** Sends `data` and the line terminator, encoded as ASCII. */
    method WriteSSLStream(data: string)
      modifies this
      ensures inbound == old(inbound)
      ensures transcript == old(transcript) + [Sent(Line(data))]
    {
      Write(Line(data));
    }

    /** The exchange once the TLS stream is up: banner, CAPABILITY,
      AUTHENTICATE with the XOAUTH2 response, and — unless that is rejected —
      STATUS and LOGOUT, one read after each write. */
    method RetrieveMessages(auth: XOAuth2.AuthenticationResult)
      modifies this
      ensures var run := Conversation(old(inbound), XOAuth2.XOauth2(auth));
              transcript == old(transcript) + run.events && inbound == run.rest
    {
      ghost var start, queued := transcript, inbound;
      var blob := XOAuth2.XOauth2(auth);
      ghost var banner := Receive(queued, BufferSize);
      ghost var capability := Exchange(banner.rest, Capability);
      ghost var authenticate := Exchange(capability.rest, Authenticate(blob));
      var _ := ReadSSLStream();
      ghost var done := [Received(banner.data)];
      WriteSSLStream(Capability);
      var _ := ReadSSLStream();
      Regroup(start, done, capability.events);
      done := done + capability.events;
      WriteSSLStream(Authenticate(blob));
      var response := ReadSSLStream();
      Regroup(start, done, authenticate.events);
      done := done + authenticate.events;
      assert done == Opening(queued, blob).events;
      if StartsWith(response, Rejection) {
      } else {
        ghost var status := Exchange(authenticate.rest, Status);
        ghost var logout := Exchange(status.rest, Logout);
        WriteSSLStream(Status);
        var _ := ReadSSLStream();
        Regroup(start, done, status.events);
        done := done + status.events;
        WriteSSLStream(Logout);
        var _ := ReadSSLStream();
        Regroup(start, done, logout.events);
        done := done + logout.events;
      }
    }
  }
}
