/**
 * The Api class of ros_api/api.py: a connection to one router over a socket,
 * whose methods write and read the socket step by step. Each method is proved
 * to leave the socket, and to return, exactly what the corresponding function
 * of RosWire or RosReply describes.
 */
module RosApi {
  import opened Wrappers
  import Seqs
  import opened Bytes
  import opened Sockets
  import opened LengthCodec
  import opened RosWire
  import opened RosReply
  import opened LoginWords
  import opened Dicts
  import opened Text
  import Hex
  import Utf8
  import Defaults

  class Api {
    const address: string
    const user: string
    const password: string
    const useSsl: bool
    const port: int
    const timeout: Timeout
    var sock: Socket

    /**
     * __init__ up to open_socket: keep the settings, choose the port, and
     * connect a socket (with the configured timeout) to a peer that will send
     * `peer`.
     */
    constructor (address: string, user: string, password: string, useSsl: bool, port: int, timeout: Timeout, peer: seq<Byte>)
      ensures this.address == address && this.user == user && this.password == password
      ensures this.useSsl == useSsl && this.timeout == timeout
      ensures this.port == Defaults.SelectPort(port, useSsl)
      ensures fresh(sock) && sock.State() == SocketState(peer, [], false, timeout)
    {
      this.address := address;
      this.user := user;
      this.password := password;
      this.useSsl := useSsl;
      this.port := Defaults.SelectPort(port, useSsl);
      this.timeout := timeout;
      this.sock := new Socket(peer, timeout);
    }

    /** open_socket: a new socket with the configured timeout, to a peer that will send `peer`. */
    method OpenSocket(peer: seq<Byte>)
      modifies this
      ensures fresh(sock) && sock.State() == SocketState(peer, [], false, timeout)
    {
      sock := new Socket(peer, timeout);
    }

    /** create_connection: open a new socket and log in on it. */
    method CreateConnection(peer: seq<Byte>, md5: seq<Byte> -> seq<Byte>) returns (r: Result<Paragraph, Error>)
      modifies this
      ensures fresh(sock)
      ensures Outcome(r, sock.State()) == RosReply.Login(SocketState(peer, [], false, timeout), user, password, md5)
    {
      OpenSocket(peer);
      r := Login(md5);
    }

    /** close: close the socket. */
    method Close()
      modifies sock
      ensures sock.State() == old(sock.State()).(closed := true)
    {
      sock.Close();
    }

    // -------------------------------------------------------------------------
    // communicate

    /** send_length: write the length prefix of w, as EncodeLength gives it. */
    method SendLength(w: string) returns (r: Result<(), Error>)
      modifies sock
      ensures |w| >= MaxWordLength ==> r == Err(WordTooLong) && sock.State() == old(sock.State())
      ensures |w| < MaxWordLength && sock.closed ==> r == Err(SocketError) && sock.State() == old(sock.State())
      ensures |w| < MaxWordLength && !sock.closed ==>
        r == Ok(()) && sock.State() == old(sock.State()).(output := old(sock.output) + EncodeLength(|w|).value)
    {
      var n := |w|;
      var width: nat;
      if n < 0x80 {
        width := 1;
      } else if n < 0x4000 {
        n := n + 0x8000;
        width := 2;
      } else if n < 0x20_0000 {
        n := n + 0xC0_0000;
        width := 3;
      } else if n < 0x1000_0000 {
        n := n + 0xE000_0000;
        width := 4;
      } else if n < MaxWordLength {
        width := 4;
        var ok := sock.SendAll([0xF0]);
        if !ok {
          return Err(SocketError);
        }
      } else {
        return Err(WordTooLong);
      }
      assert Pow256(1) == 256 && Pow256(2) == 0x1_0000 && Pow256(3) == 0x100_0000 && Pow256(4) == 0x1_0000_0000;
      var ok := sock.SendAll(ToBytes(n, width));
      if !ok {
        return Err(SocketError);
      }
      r := Ok(());
    }

    /** receive_length: the length of the next word, read from the socket. */
    method ReceiveLength() returns (r: LengthValue)
      requires !sock.closed
      modifies sock
      ensures LengthRead(r, sock.input) == LengthCodec.ReceiveLength(old(sock.input))
      ensures sock.State() == old(sock.State()).(input := sock.input)
    {
      var first := sock.Recv(1);
      if ByteLess(first, 0x80) {
        r := Num(BigEndian(first));
      } else if first[0] < 0xC0 {
        var more := sock.Recv(1);
        r := Num(BigEndian(first + more) - 0x8000);
      } else if first[0] < 0xE0 {
        var more := sock.Recv(2);
        r := Num(BigEndian(first + more) - 0xC0_0000);
      } else if first[0] < 0xF0 {
        var more := sock.Recv(3);
        r := Num(BigEndian(first + more) - 0xE000_0000);
      } else if first[0] == 0xF0 {
        var more := sock.Recv(4);
        r := Num(BigEndian(more));
      } else {
        r := Unmatched(first[0]);
      }
    }

    /**
     * read_sentence: words until a zero length, each read in full and decoded
     * with backslashreplace.
     */
    method ReadSentence() returns (r: Result<Sentence, Error>)
      requires !sock.closed
      modifies sock
      ensures Step(r, sock.input) == RosWire.ReadSentence(old(sock.input))
      ensures sock.State() == old(sock.State()).(input := sock.input)
    {
      var words: Sentence := [];
      var len := ReceiveLength();
      while len != Num(0)
        invariant !sock.closed && sock.State() == old(sock.State()).(input := sock.input)
        invariant len.Num? && len.n < 0 ==> sock.input == []
        invariant RosWire.ReadSentence(old(sock.input)) == WordsAfter(len, sock.input, words)
        decreases |sock.input| + (if len.Num? && len.n < 0 then 1 else 0)
      {
        if len.Unmatched? {
          // the guard rcv_length > len(received) compares bytes with an int
          return Err(LengthTypeError);
        }
        ghost var start := sock.input;
        var received := ReceiveWord(len.n);
        if received.None? {
          return Err(ConnectionBroken);
        }
        WordsAfterWord(len.n, start, words);
        words := words + [Utf8.DecodeReplace(received.value)];
        len := ReceiveLength();
      }
      r := Ok(words);
    }

    /**
     * read_sentence's inner loop: recv until n bytes have arrived (recv may
     * hand over fewer than asked for); None where recv returns b'' first, which
     * raises RuntimeError('socket connection broken').
     */
    method ReceiveWord(n: int) returns (received: Option<seq<Byte>>)
      requires !sock.closed
      modifies sock
      ensures sock.State() == old(sock.State()).(input := sock.input)
      ensures received.None? <==> n > |old(sock.input)|
      ensures received.None? ==> sock.input == []
      ensures received.Some? ==> var k := if n < 0 then 0 else n;
        received.value == old(sock.input)[..k] && sock.input == old(sock.input)[k..]
    {
      var bytes: seq<Byte> := [];
      while n > |bytes|
        invariant !sock.closed && sock.State() == old(sock.State()).(input := sock.input)
        invariant bytes + sock.input == old(sock.input)
        invariant n > 0 ==> |bytes| <= n
        invariant n <= 0 ==> bytes == []
        decreases n - |bytes|
      {
        ghost var before := sock.input;
        var rec := sock.Recv(n - |bytes|);
        if rec == [] {
          return None;
        }
        MoveChunk(bytes, before, |rec|);
        bytes := bytes + rec;
      }
      PrefixOfAppend(bytes, sock.input);
      received := Some(bytes);
    }

    /** communicate: write the sentence, then read the reply paragraph. */
    method Communicate(sentence: Sentence) returns (r: Result<Paragraph, Error>)
      modifies sock
      ensures Outcome(r, sock.State()) == Exchange(old(sock.State()), sentence)
    {
      var sent := SendSentence(sentence);
      if sent.Err? {
        return Err(sent.error);
      }
      r := ReadParagraph();
    }

    /**
     * The sending part of communicate: the words, then the zero-length word
     * that ends the sentence.
     */
    method SendSentence(sentence: Sentence) returns (r: Result<(), Error>)
      modifies sock
      ensures Outcome(r, sock.State()) == Transmit(old(sock.State()), sentence)
    {
      ghost var st := sock.State();
      r := SendWords(sentence);
      if r.Err? {
        return;
      }
      var ended := sock.SendAll([0]);
      if !ended {
        // only an empty sentence reaches the terminator on a closed socket
        assert sock.output == st.output + [];
        TransmitFirst(st, sentence);
        return Err(SocketError);
      }
      TransmitSent(st, sentence);
      r := Ok(());
    }

    /** The word loop of communicate: each word's length prefix and UTF-8 bytes, in order. */
    method SendWords(sentence: Sentence) returns (r: Result<(), Error>)
      modifies sock
      ensures sock.State() == old(sock.State()).(output := sock.output)
      ensures r.Ok? ==> Encodable(sentence) && sock.output == old(sock.output) + FrameWords(sentence).bytes
      ensures r.Ok? && sentence != [] ==> !sock.closed
      ensures r.Err? ==> Outcome(r, sock.State()) == Transmit(old(sock.State()), sentence)
    {
      ghost var st := sock.State();
      for i := 0 to |sentence|
        invariant sock.State() == st.(output := sock.output)
        invariant Encodable(sentence[..i]) && sock.output == st.output + FrameWords(sentence[..i]).bytes
        invariant i > 0 ==> !sock.closed
      {
        var sent := SendWord(sentence[i]);
        if sent.Err? {
          TransmitStops(st, sentence, i);
          return Err(sent.error);
        }
        FramingGoesOn(sentence, i);
        Seqs.ConcatAssoc(st.output, FrameWords(sentence[..i]).bytes, WordFrame(sentence[i]).value);
      }
      assert sentence[..|sentence|] == sentence;
      r := Ok(());
    }

    /** One pass of the word loop of communicate: send_length, then the word's UTF-8 bytes. */
    method SendWord(w: string) returns (r: Result<(), Error>)
      modifies sock
      ensures |w| >= MaxWordLength ==> r == Err(WordTooLong) && sock.State() == old(sock.State())
      ensures |w| < MaxWordLength && sock.closed ==> r == Err(SocketError) && sock.State() == old(sock.State())
      ensures |w| < MaxWordLength && !sock.closed ==>
        r == Ok(()) && sock.State() == old(sock.State()).(output := old(sock.output) + WordFrame(w).value)
    {
      r := SendLength(w);
      if r.Ok? {
        // the prefix went out, so the socket is open and sendall succeeds
        var _ := sock.SendAll(Utf8.Encode(w));
      }
    }

    /**
     * The receiving part of communicate: sentences until one starts with !done;
     * an empty sentence raises IndexError at the loop guard.
     */
    method ReadParagraph() returns (r: Result<Paragraph, Error>)
      requires !sock.closed
      modifies sock
      ensures Step(r, sock.input) == RosWire.ReadParagraph(old(sock.input))
      ensures sock.State() == old(sock.State()).(input := sock.input)
    {
      var paragraph: Paragraph := [];
      var received: Sentence := [""];
      while received != [] && received[0] != "!done"
        invariant !sock.closed && sock.State() == old(sock.State()).(input := sock.input)
        invariant received != [] && received[0] != "!done" ==>
          RosWire.ReadParagraph(old(sock.input)) == ReadSentences(sock.input, paragraph)
        invariant received == [] ==> RosWire.ReadParagraph(old(sock.input)) == Step(Err(IndexError), sock.input)
        invariant received != [] && received[0] == "!done" ==>
          RosWire.ReadParagraph(old(sock.input)) == Step(Ok(paragraph), sock.input)
        decreases |sock.input| + (if received != [] && received[0] != "!done" then 1 else 0)
      {
        ghost var before := sock.input;
        ghost var done := paragraph;
        var s := ReadSentence();
        if s.Err? {
          return Err(s.error);
        }
        received := s.value;
        paragraph := paragraph + [received];
      }
      if received == [] {
        // received_sentence[0] on the empty sentence
        return Err(IndexError);
      }
      r := Ok(paragraph);
    }

    // -------------------------------------------------------------------------
    // login

    /** login: send the name and password, then check the reply. */
    method Login(md5: seq<Byte> -> seq<Byte>) returns (r: Result<Paragraph, Error>)
      modifies sock
      ensures Outcome(r, sock.State()) == RosReply.Login(old(sock.State()), user, password, md5)
    {
      var reply := Communicate(LoginSentence(user, password));
      if reply.Err? {
        return Err(reply.error);
      }
      r := CheckReply(reply.value, md5);
    }

    /** check_reply: accept, reject, or answer the challenge of a legacy router. */
    method CheckReply(reply: Paragraph, md5: seq<Byte> -> seq<Byte>) returns (r: Result<Paragraph, Error>)
      requires IsParagraph(reply)
      modifies sock
      ensures Outcome(r, sock.State()) == RosReply.CheckReply(old(sock.State()), reply, user, password, md5)
      decreases |sock.input|, 1
    {
      var refused := ReplyHasError(reply);
      if |reply[0]| == 1 && reply[0][0] == "!done" {
        r := Ok(reply);
      } else if refused {
        r := Err(LoginRejected(reply));
      } else if |reply[0]| == 2 && StartsWith(reply[0][1], "=ret=") {
        r := ProcessOldLogin(reply, md5);
      } else {
        r := Err(LoginUnexpected(reply));
      }
    }

    /** reply_has_error: the first sentence is two words, the first of them !trap. */
    static method ReplyHasError(reply: Paragraph) returns (b: bool)
      requires reply != []
      ensures b <==> ClassifyLogin(reply[0]).Refused?
    {
      b := |reply[0]| == 2 && reply[0][0] == "!trap";
    }

    /** process_old_login: answer the =ret= challenge with the MD5 response and check the new reply. */
    method ProcessOldLogin(reply: Paragraph, md5: seq<Byte> -> seq<Byte>) returns (r: Result<Paragraph, Error>)
      requires IsParagraph(reply) && ClassifyLogin(reply[0]).Challenge?
      modifies sock
      ensures Outcome(r, sock.State()) == RosReply.CheckReply(old(sock.State()), reply, user, password, md5)
      decreases |sock.input|, 0
    {
      var challenge := Hex.Unhexlify(reply[0][1][5..]);
      if challenge.None? {
        return Err(BadChallenge);
      }
      var digest := md5(Utf8.Encode("\0" + password) + challenge.value);
      var sentence := ["/login", "=name=" + user, "=response=00" + Hex.Hexlify(digest)];
      var next := Communicate(sentence);
      if next.Err? {
        return Err(next.error);
      }
      r := CheckReply(next.value, md5);
    }

    // -------------------------------------------------------------------------
    // talk and send

    /** talk: send a str or a tuple once, each element of a list in turn, and reject anything else. */
    method Talk(message: Message) returns (r: Result<TalkReply, Error>)
      modifies sock
      ensures Outcome(r, sock.State()) == RosReply.Talk(old(sock.State()), message)
    {
      match message {
        case StrMessage(s) =>
          var one := Send(Text(s));
          r := if one.Ok? then Ok(Single(one.value)) else Err(one.error);
        case TupleMessage(ws) =>
          var one := Send(Words(ws));
          r := if one.Ok? then Ok(Single(one.value)) else Err(one.error);
        case ListMessage(items) =>
          ghost var st := sock.State();
          var replies: seq<seq<Dict>> := [];
          for i := 0 to |items|
            invariant SendEach(st, items, []) == SendEach(sock.State(), items[i..], replies)
          {
            var one := Send(items[i]);
            if one.Err? {
              return Err(one.error);
            }
            replies := replies + [one.value];
          }
          r := Ok(Batch(replies));
        case OtherMessage =>
          r := Err(UnsupportedMessage);
      }
    }

    /** send: split a str command, exchange it, raise on !trap, and tabulate the reply. */
    method Send(command: Command) returns (r: Result<seq<Dict>, Error>)
      modifies sock
      ensures Outcome(r, sock.State()) == RosReply.Send(old(sock.State()), command)
    {
      var sentence := match command
        case Text(s) => Split(s)
        case Words(ws) => ws;
      var reply := Communicate(sentence);
      if reply.Err? {
        return Err(reply.error);
      }
      if Contains(reply.value[0][0], "!trap") {
        return Err(TrapError(sentence, reply.value));
      }
      r := NiceReply(reply.value);
    }

    /** send's nice_reply: one dict per sentence but the last, filled from its attribute words. */
    static method NiceReply(reply: Paragraph) returns (r: Result<seq<Dict>, Error>)
      ensures r == RecordsBeforeDone(reply)
    {
      var sentences := if reply == [] then [] else reply[..|reply| - 1];
      var nice: seq<Dict> := [];
      for m := 0 to |sentences|
        invariant Records(sentences[..m]) == Ok(nice)
      {
        var d: Dict := [];
        var ws := AttributeWords(sentences[m]);
        for j := 0 to |ws|
          invariant Record(sentences[m]) == Fill(d, ws[j..])
        {
          var kv := Attribute(ws[j]);
          if kv.None? {
            RecordsStop(sentences, m);
            return Err(MissingEquals);
          }
          d := Put(d, kv.value.0, kv.value.1);
        }
        nice := nice + [d];
        RecordsNext(sentences, m);
      }
      assert sentences[..|sentences|] == sentences;
      r := Ok(nice);
    }

    // -------------------------------------------------------------------------
    // is_alive

    /**
     * is_alive: probe the router with a 2-second timeout. `fault` stands for a
     * socket.timeout or BrokenPipeError raised by the probe.
     */
    method IsAlive(fault: Option<Fault>) returns (r: Result<bool, Error>)
      modifies sock
      ensures Outcome(r, sock.State()) == RosReply.IsAlive(old(sock.State()), timeout, fault)
    {
      var ok := sock.SetTimeout(Seconds(2.0));
      if !ok {
        return Ok(false);
      }
      if fault.Some? {
        sock.Close();
        return Ok(false);
      }
      r := Probe();
    }

    /** The second try block of is_alive: talk the probe and judge the outcome. */
    method Probe() returns (r: Result<bool, Error>)
      modifies sock
      ensures Outcome(r, sock.State()) == Probed(old(sock.State()), timeout)
    {
      var probe := Talk(StrMessage(RosReply.Probe));
      r := Judge(probe);
    }

    /** The except and else branches of is_alive's second try block. */
    method Judge(probe: Result<TalkReply, Error>) returns (r: Result<bool, Error>)
      requires probe.Ok? ==> !sock.closed
      modifies sock
      ensures Outcome(r, sock.State()) == Verdict(Outcome(probe, old(sock.State())), timeout)
    {
      if probe.Err? {
        if probe.error == IndexError {
          sock.Close();
          return Ok(false);
        }
        return Err(probe.error);
      }
      var _ := sock.SetTimeout(timeout);
      r := Ok(true);
    }
  }

  // ---------------------------------------------------------------------------
  // Proof steps of the loops above

  /** Moving the first k bytes of the stream to the bytes received keeps their concatenation. */
  lemma MoveChunk(got: seq<Byte>, stream: seq<Byte>, k: nat)
    requires k <= |stream|
    ensures (got + stream[..k]) + stream[k..] == got + stream
  {
    assert stream[..k] + stream[k..] == stream;
  }

  lemma PrefixOfAppend(a: seq<Byte>, b: seq<Byte>)
    ensures (a + b)[..|a|] == a && (a + b)[|a|..] == b
  {
  }

  /** read_sentence once a non-zero length n has been received and the word's bytes are there. */
  lemma WordsAfterWord(n: int, inp: seq<Byte>, words: Sentence)
    requires n != 0 && n <= |inp| && (n < 0 ==> inp == [])
    ensures var k := if n < 0 then 0 else n;
      WordsAfter(Num(n), inp, words) == ReadWords(inp[k..], words + [Utf8.DecodeReplace(inp[..k])])
  {
  }

  /**
   * The word loop stops at word i, after i words framed in full, when that
   * word is too long (WordTooLong) or the socket is closed (OSError, which
   * can only happen at the first word).
   */
  lemma TransmitStops(st: SocketState, ws: Sentence, i: nat)
    requires i < |ws| && Encodable(ws[..i]) && (i > 0 ==> !st.closed)
    requires st.closed || |ws[i]| >= MaxWordLength
    ensures Transmit(st, ws) ==
      Outcome(Err(if |ws[i]| >= MaxWordLength then WordTooLong else SocketError), st.(output := st.output + FrameWords(ws[..i]).bytes))
  {
    if i == 0 {
      assert ws[..0] == [] && st.output + [] == st.output;
      TransmitFirst(st, ws);
    } else {
      FramingStops(ws, i);
    }
  }

  /** A closed socket fails on the first word: WordTooLong if it is too long, OSError otherwise. */
  lemma TransmitFirst(st: SocketState, ws: Sentence)
    requires st.closed || (ws != [] && |ws[0]| >= MaxWordLength)
    ensures Transmit(st, ws) == Outcome(Err(if ws != [] && |ws[0]| >= MaxWordLength then WordTooLong else SocketError), st)
  {
    if !st.closed {
      assert ws[..0] == [];
      FramingStops(ws, 0);
    }
  }

  /** On an open socket, a sentence of short enough words is written in full. */
  lemma TransmitSent(st: SocketState, ws: Sentence)
    requires !st.closed && Encodable(ws)
    ensures Transmit(st, ws) == Outcome(Ok(()), st.(output := st.output + FrameWords(ws).bytes + [0]))
  {
  }

  /** A word that is too long stops the framing after the words before it. */
  lemma FramingStops(ws: Sentence, i: nat)
    requires i < |ws| && Encodable(ws[..i]) && |ws[i]| >= MaxWordLength
    ensures FrameWords(ws) == Framed(FrameWords(ws[..i]).bytes, true)
  {
    assert ws == ws[..i] + ws[i..];
    FrameWordsAppend(ws[..i], ws[i..]);
    assert ws[i..][0] == ws[i];
  }

  /** A word short enough is framed after the words before it. */
  lemma FramingGoesOn(ws: Sentence, i: nat)
    requires i < |ws| && Encodable(ws[..i]) && |ws[i]| < MaxWordLength
    ensures Encodable(ws[..i + 1])
    ensures FrameWords(ws[..i + 1]).bytes == FrameWords(ws[..i]).bytes + WordFrame(ws[i]).value
  {
    assert ws[..i + 1] == ws[..i] + [ws[i]];
    FrameWordsAppend(ws[..i], [ws[i]]);
    assert FrameWords([ws[i]]).bytes == WordFrame(ws[i]).value + FrameWords([]).bytes;
  }

  /** A sentence without a dict makes the whole tabulation fail. */
  lemma RecordsStop(sentences: seq<Sentence>, m: nat)
    requires m < |sentences| && Records(sentences[..m]).Ok? && Record(sentences[m]) == Err(MissingEquals)
    ensures Records(sentences) == Err(MissingEquals)
  {
    assert sentences[..m + 1][..m] == sentences[..m];
    MapResultsStop(Record, sentences, m + 1);
  }

  /** One more sentence tabulated. */
  lemma RecordsNext(sentences: seq<Sentence>, m: nat)
    requires m < |sentences| && Records(sentences[..m]).Ok? && Record(sentences[m]).Ok?
    ensures Records(sentences[..m + 1]) == Ok(Records(sentences[..m]).value + [Record(sentences[m]).value])
  {
    assert sentences[..m + 1][..m] == sentences[..m];
  }
}
