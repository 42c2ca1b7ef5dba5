/**
 * The Api class of routeros_api.py: a connection to one router over a
 * socket, whose methods write and read the socket step by step. Each method
 * is proved to leave the socket, and to return, exactly what the
 * corresponding function of RouterosWire or RouterosReply describes.
 */
module RouterosApi {
  import opened Wrappers
  import Seqs
  import opened Bytes
  import opened Sockets
  import opened RouterosWire
  import opened RouterosReply
  import opened LoginWords
  import opened Dicts
  import opened Text
  import Utf8
  import Defaults

  class Api {
    const address: string
    const user: string
    const password: string
    const useSsl: bool
    const port: int
    var sock: Socket

    /**
     * __init__ up to open_socket: keep the settings, choose the port, and
     * connect a blocking socket to a peer that will send `peer`.
     */
    constructor (address: string, user: string, password: string, useSsl: bool, port: int, peer: seq<Byte>)
      ensures this.address == address && this.user == user && this.password == password
      ensures this.useSsl == useSsl && this.port == Defaults.SelectPort(port, useSsl)
      ensures fresh(sock) && sock.State() == SocketState(peer, [], false, Blocking)
    {
      this.address := address;
      this.user := user;
      this.password := password;
      this.useSsl := useSsl;
      this.port := Defaults.SelectPort(port, useSsl);
      this.sock := new Socket(peer, Blocking);
    }

    /** close: close the socket. */
    method Close()
      modifies sock
      ensures sock.State() == old(sock.State()).(closed := true)
    {
      sock.Close();
    }

    // -------------------------------------------------------------------------
    // login

    /**
     * login: send the name and password, then test the reply in the order
     * the source does: a first sentence ['!done'], then `'Error' in reply`,
     * then a legacy =ret= challenge.
     */
    method Login(md5: seq<Byte> -> seq<Byte>) returns (r: Result<Option<Reply>, Error>)
      modifies sock
      ensures Outcome(r, sock.State()) == RouterosReply.Login(old(sock.State()), address, user, password, md5)
    {
      assert LoginSentence(user, password)[0] == "/login";
      var reply := Communicate(LoginSentence(user, password));
      if reply.Err? {
        return Err(reply.error);
      }
      var rep := reply.value;
      if rep.Para? && rep.sentences[0] == ["!done"] {
        r := Ok(Some(rep));
      } else if HasError(rep) {
        // 'Login ' + reply: a str concatenates, a list raises TypeError
        r := Err(if rep.ErrorText? then LoginError("Login " + rep.text) else LoginTypeError);
      } else if |rep.sentences[0]| == 2 && StartsWith(rep.sentences[0][1], "=ret=") {
        var response := ChallengeResponse(user, password, rep.sentences[0][1][5..], md5);
        if response.None? {
          return Err(BadChallenge);
        }
        var legacy := Communicate(response.value);
        r := if legacy.Ok? then Ok(Some(legacy.value)) else Err(legacy.error);
      } else {
        r := Ok(None);
      }
    }

    // -------------------------------------------------------------------------
    // communicate

    /** communicate: write the sentence, then read sentences until !done or an error. */
    method Communicate(sentence: Sentence) returns (r: Result<Reply, Error>)
      modifies sock
      ensures Outcome(r, sock.State()) == Exchange(old(sock.State()), address, sentence)
    {
      var sent := SendSentence(sentence);
      if sent.Err? {
        return Err(sent.error);
      }
      r := ReadReply(sentence);
    }

    /** The sending part of communicate: the words, then the zero byte that ends the sentence. */
    method SendSentence(sentence: Sentence) returns (r: Result<(), Error>)
      modifies sock
      ensures Outcome(r, sock.State()) == Transmit(old(sock.State()), sentence)
    {
      ghost var st := sock.State();
      r := SendWords(sentence);
      if r.Err? {
        return;
      }
      var ended := sock.SendAll([0]);
      if !ended {
        // only an empty sentence reaches the zero byte on a closed socket
        assert sock.output == st.output + [];
        TransmitFirst(st, sentence);
        return Err(SocketError);
      }
      TransmitSent(st, sentence);
      r := Ok(());
    }

    /** The word loop of communicate: each word's length byte and UTF-8 bytes, in order. */
    method SendWords(sentence: Sentence) returns (r: Result<(), Error>)
      modifies sock
      ensures sock.State() == old(sock.State()).(output := sock.output)
      ensures r.Ok? ==> Encodable(sentence) && sock.output == old(sock.output) + FrameWords(sentence).bytes
      ensures r.Ok? && sentence != [] ==> !sock.closed
      ensures r.Err? ==> Outcome(r, sock.State()) == Transmit(old(sock.State()), sentence)
    {
      ghost var st := sock.State();
      for i := 0 to |sentence|
        invariant sock.State() == st.(output := sock.output)
        invariant Encodable(sentence[..i]) && sock.output == st.output + FrameWords(sentence[..i]).bytes
        invariant i > 0 ==> !sock.closed
      {
        var sent := SendWord(sentence[i]);
        if sent.Err? {
          TransmitStops(st, sentence, i);
          return Err(sent.error);
        }
        FramingGoesOn(sentence, i);
        Seqs.ConcatAssoc(st.output, FrameWords(sentence[..i]).bytes, WordFrame(sentence[i]).value);
      }
      assert sentence[..|sentence|] == sentence;
      r := Ok(());
    }

    /** One pass of the word loop: len(word).to_bytes(1, 'big'), then the word's UTF-8 bytes. */
    method SendWord(w: string) returns (r: Result<(), Error>)
      modifies sock
      ensures |w| >= MaxWordLength ==> r == Err(Overflow) && sock.State() == old(sock.State())
      ensures |w| < MaxWordLength && sock.closed ==> r == Err(SocketError) && sock.State() == old(sock.State())
      ensures |w| < MaxWordLength && !sock.closed ==>
        r == Ok(()) && sock.State() == old(sock.State()).(output := old(sock.output) + WordFrame(w).value)
    {
      if |w| >= MaxWordLength {
        return Err(Overflow);
      }
      var ok := sock.SendAll([|w|]);
      if !ok {
        return Err(SocketError);
      }
      ok := sock.SendAll(Utf8.Encode(w));
      r := Ok(());
    }

    /**
     * The receiving loop of communicate: read sentences while the last one
     * (the outgoing sentence at first) does not start with !done; an error
     * string or a sentence holding 'Error' is returned at once.
     */
    method ReadReply(sentence: Sentence) returns (r: Result<Reply, Error>)
      requires !sock.closed
      modifies sock
      ensures Step(r, sock.input) == Collect(old(sock.input), address, sentence, [])
      ensures sock.State() == old(sock.State()).(input := sock.input)
    {
      var paragraph: Paragraph := [];
      var current := sentence;
      while current == [] || current[0] != "!done"
        invariant !sock.closed && sock.State() == old(sock.State()).(input := sock.input)
        invariant Collect(old(sock.input), address, sentence, []) == Collect(sock.input, address, current, paragraph)
        decreases |sock.input| + (if current == [] then 0 else 1)
      {
        if current == [] {
          // sentence[0] on an empty sentence
          return Err(IndexError);
        }
        var s := ReadSentence();
        if s.Err? {
          return Err(s.error);
        }
        match s.value {
          case ErrorString(text) =>
            return Ok(ErrorText(text));
          case Words(ws) =>
            if "Error" in ws {
              return Ok(Flagged(ws));
            }
            paragraph := paragraph + [ws];
            current := ws;
        }
      }
      r := Ok(Para(paragraph));
    }

    /**
     * read_sentence: words until a zero length byte; the word after !trap is
     * turned into the error string at once.
     */
    method ReadSentence() returns (r: Result<Received, Error>)
      requires !sock.closed
      modifies sock
      ensures Step(r, sock.input) == RouterosWire.ReadSentence(old(sock.input), address)
      ensures sock.State() == old(sock.State()).(input := sock.input)
    {
      var words: Sentence := [];
      var chunk := sock.Recv(1);
      var len := LengthByte(chunk);
      var trap := false;
      while len != 0
        invariant !sock.closed && sock.State() == old(sock.State()).(input := sock.input)
        invariant RouterosWire.ReadSentence(old(sock.input), address) == WordsAfter(len, sock.input, address, words, trap)
        decreases |sock.input|
      {
        var received := ReceiveWord(len);
        if received.Err? {
          return Err(received.error);
        }
        if trap {
          // received.split('=')[2]
          var text := TrapText(address, received.value);
          if text.None? {
            return Err(IndexError);
          }
          return Ok(ErrorString(text.value));
        }
        if received.value == "!trap" {
          trap := true;
        }
        words := words + [received.value];
        chunk := sock.Recv(1);
        len := LengthByte(chunk);
      }
      r := Ok(Words(words));
    }

    /**
     * read_sentence's inner loop: recv the characters still missing and
     * decode each chunk strictly; a chunk that does not decode has its first
     * byte taken as the new length and the rest decoded strictly.
     */
    method ReceiveWord(n: Byte) returns (r: Result<string, Error>)
      requires !sock.closed
      modifies sock
      ensures Step(r, sock.input) == RouterosWire.ReceiveWord(n, old(sock.input), "")
      ensures sock.State() == old(sock.State()).(input := sock.input)
    {
      var len: int := n;
      var received := "";
      while len > |received|
        invariant !sock.closed && sock.State() == old(sock.State()).(input := sock.input)
        invariant RouterosWire.ReceiveWord(n, old(sock.input), "") == RouterosWire.ReceiveWord(len, sock.input, received)
        decreases |sock.input|
      {
        var rec := sock.Recv(len - |received|);
        if rec == [] {
          return Err(ConnectionBroken);
        }
        var text := Utf8.DecodeStrict(rec);
        if text.None? {
          len := rec[0];
          text := Utf8.DecodeStrict(rec[1..]);
          if text.None? {
            return Err(DecodeError);
          }
        }
        received := received + text.value;
      }
      r := Ok(received);
    }

    // -------------------------------------------------------------------------
    // talk and send

    /** talk: send a str, send each element of a list in turn, and return None for anything else. */
    method Talk(message: Message) returns (r: Result<TalkReply, Error>)
      modifies sock
      ensures Outcome(r, sock.State()) == RouterosReply.Talk(old(sock.State()), address, message)
    {
      match message {
        case StrMessage(s) =>
          var one := Send(s);
          r := if one.Ok? then Ok(One(one.value)) else Err(one.error);
        case ListMessage(items) =>
          ghost var st := sock.State();
          var replies: seq<Answer> := [];
          for i := 0 to |items|
            invariant SendEach(st, address, items, []) == SendEach(sock.State(), address, items[i..], replies)
          {
            assert items[i..][0] == items[i] && items[i..][1..] == items[i + 1..];
            if !items[i].StrMessage? {
              // a list element without split()
              return Err(AttributeError);
            }
            var one := Send(items[i].s);
            if one.Err? {
              return Err(one.error);
            }
            replies := replies + [one.value];
          }
          r := Ok(Many(replies));
        case OtherMessage =>
          r := Ok(Nothing);
      }
    }

    /** send: split the command and exchange it; return a reply with 'Error' as it is, else the dicts. */
    method Send(command: string) returns (r: Result<Answer, Error>)
      modifies sock
      ensures Outcome(r, sock.State()) == RouterosReply.Send(old(sock.State()), address, command)
    {
      var reply := Communicate(Split(command));
      if reply.Err? {
        return Err(reply.error);
      }
      if HasError(reply.value) {
        return Ok(Verbatim(reply.value));
      }
      var nice := NiceReply(reply.value.sentences);
      r := if nice.Ok? then Ok(Table(nice.value)) else Err(nice.error);
    }

    /** send's nice_reply: one dict per sentence but the last, filled from its attribute words. */
    static method NiceReply(reply: Paragraph) returns (r: Result<seq<Dict>, Error>)
      ensures r == RecordsBeforeDone(reply)
    {
      var sentences := if reply == [] then [] else reply[..|reply| - 1];
      var nice: seq<Dict> := [];
      for m := 0 to |sentences|
        invariant Records(sentences[..m]) == Ok(nice)
      {
        var d: Dict := [];
        var ws := AttributeWords(sentences[m]);
        for j := 0 to |ws|
          invariant Record(sentences[m]) == Fill(d, ws[j..])
        {
          var kv := Attribute(ws[j]);
          if kv.None? {
            RecordsStop(sentences, m);
            return Err(ValueError);
          }
          d := Put(d, kv.value.0, kv.value.1);
        }
        nice := nice + [d];
        RecordsNext(sentences, m);
      }
      assert sentences[..|sentences|] == sentences;
      r := Ok(nice);
    }
  }

  // ---------------------------------------------------------------------------
  // Proof steps of the loops above

  /**
   * The word loop stops at word i, after i words framed in full, when that
   * word is too long (Overflow) or the socket is closed (OSError, which can
   * only happen at the first word).
   */
  lemma TransmitStops(st: SocketState, ws: Sentence, i: nat)
    requires i < |ws| && Encodable(ws[..i]) && (i > 0 ==> !st.closed)
    requires st.closed || |ws[i]| >= MaxWordLength
    ensures Transmit(st, ws) ==
      Outcome(Err(if |ws[i]| >= MaxWordLength then Overflow else SocketError), st.(output := st.output + FrameWords(ws[..i]).bytes))
  {
    if i == 0 {
      assert ws[..0] == [] && st.output + [] == st.output;
      TransmitFirst(st, ws);
    } else {
      FramingStops(ws, i);
    }
  }

  /** A closed socket fails on the first word: Overflow if it is too long, OSError otherwise. */
  lemma TransmitFirst(st: SocketState, ws: Sentence)
    requires st.closed || (ws != [] && |ws[0]| >= MaxWordLength)
    ensures Transmit(st, ws) == Outcome(Err(if ws != [] && |ws[0]| >= MaxWordLength then Overflow else SocketError), st)
  {
    if !st.closed {
      assert ws[..0] == [];
      FramingStops(ws, 0);
    }
  }

  /** On an open socket, a sentence of short enough words is written in full. */
  lemma TransmitSent(st: SocketState, ws: Sentence)
    requires !st.closed && Encodable(ws)
    ensures Transmit(st, ws) == Outcome(Ok(()), st.(output := st.output + FrameWords(ws).bytes + [0]))
  {
  }

  /** A word that is too long stops the framing after the words before it. */
  lemma FramingStops(ws: Sentence, i: nat)
    requires i < |ws| && Encodable(ws[..i]) && |ws[i]| >= MaxWordLength
    ensures FrameWords(ws) == Framed(FrameWords(ws[..i]).bytes, true)
  {
    assert ws == ws[..i] + ws[i..];
    FrameWordsAppend(ws[..i], ws[i..]);
    assert ws[i..][0] == ws[i];
  }

  /** A word short enough is framed after the words before it. */
  lemma FramingGoesOn(ws: Sentence, i: nat)
    requires i < |ws| && Encodable(ws[..i]) && |ws[i]| < MaxWordLength
    ensures Encodable(ws[..i + 1])
    ensures FrameWords(ws[..i + 1]).bytes == FrameWords(ws[..i]).bytes + WordFrame(ws[i]).value
  {
    assert ws[..i + 1] == ws[..i] + [ws[i]];
    FrameWordsAppend(ws[..i], [ws[i]]);
    FrameCons([ws[i]]);
  }

  /** A sentence that does not unpack makes the whole tabulation fail. */
  lemma RecordsStop(sentences: seq<Sentence>, m: nat)
    requires m < |sentences| && Records(sentences[..m]).Ok? && Record(sentences[m]) == Err(ValueError)
    ensures Records(sentences) == Err(ValueError)
  {
    var upTo := sentences[..m + 1];
    assert upTo[..m] == sentences[..m] && upTo[m] == sentences[m];
    assert MapResults(Record, upTo) == Err(ValueError);
    MapResultsStop(Record, sentences, m + 1);
  }

  /** One more sentence tabulated. */
  lemma RecordsNext(sentences: seq<Sentence>, m: nat)
    requires m < |sentences| && Records(sentences[..m]).Ok? && Record(sentences[m]).Ok?
    ensures Records(sentences[..m + 1]) == Ok(Records(sentences[..m]).value + [Record(sentences[m]).value])
  {
    assert sentences[..m + 1][..m] == sentences[..m];
  }
}
