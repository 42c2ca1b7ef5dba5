/**
 * The wire half of routeros_api.py's Api.communicate: every word framed as a
 * single length byte and its UTF-8 bytes, a sentence ended by a zero byte,
 * read_sentence with its strict decoding and its !trap error text, and the
 * loop that collects sentences until one starts with !done. Each operation is
 * a function of the socket state; the methods of RouterosApi.Api are proved to
 * behave exactly as these functions.
 */
module RouterosWire {
  import opened Wrappers
  import Seqs
  import opened Bytes
  import opened Sockets
  import opened Text
  import Utf8

  /** A sentence is a list of words; a paragraph the list of sentences of one reply. */
  type Sentence = seq<string>
  type Paragraph = seq<Sentence>

  /** The exceptions the client raises. */
  datatype Error =
    | Overflow                      // OverflowError: len(word).to_bytes(1) for 256 characters or more
    | SocketError                   // OSError: the socket is closed
    | ConnectionBroken              // RuntimeError('socket connection broken')
    | DecodeError                   // UnicodeDecodeError from the second, fallback decode
    | IndexError                    // an empty sentence at the loop guard; a !trap text with fewer than two '='
    | ValueError                    // send: an attribute word that is not exactly one key and one value
    | LoginError(message: string)   // LoginError('Login ' + reply)
    | LoginTypeError                // TypeError: 'Login ' + a list
    | BadChallenge                  // binascii.Error: unhexlify rejected the =ret= challenge
    | AttributeError                // talk: a list element that is not a str has no split()

  /** The exceptions communicate itself can raise. */
  predicate WireError(e: Error) {
    e.Overflow? || e.SocketError? || e.ConnectionBroken? || e.DecodeError? || e.IndexError?
  }

  /** What an operation returns or raises, and the socket state it leaves. */
  datatype Outcome<T> = Outcome(result: Result<T, Error>, state: SocketState)

  /** What a read returns or raises, and the bytes still unread. */
  datatype Step<T> = Step(result: Result<T, Error>, rest: seq<Byte>)

  /** The longest word a single length byte can announce is one character shorter than this. */
  const MaxWordLength: nat := 256

  // ---------------------------------------------------------------------------
  // Sending

  /**
   * The bytes one word puts on the wire: len(word).to_bytes(1, 'big'), the
   * single byte len(word), then the word's UTF-8 bytes.
   */
  function WordFrame(w: string): (r: Option<seq<Byte>>)
    ensures r.None? <==> |w| >= MaxWordLength
    ensures r.Some? ==> |r.value| >= 1 + |w| && r.value[0] == |w| && r.value[1..] == Utf8.Encode(w)
  {
    if |w| >= MaxWordLength then None else Some([|w|] + Utf8.Encode(w))
  }

  /** The bytes written for some words, and whether a word too long to frame stopped the writing. */
  datatype Framed = Framed(bytes: seq<Byte>, tooLong: bool)

  predicate Encodable(ws: Sentence) {
    forall i :: 0 <= i < |ws| ==> |ws[i]| < MaxWordLength
  }

  /**
   * The word loop of communicate: each word's frame in order, up to the first
   * word whose length overflows a byte, of which nothing is written.
   */
  function FrameWords(ws: Sentence): (f: Framed)
    ensures f.tooLong <==> !Encodable(ws)
  {
    if ws == [] then Framed([], false)
    else match WordFrame(ws[0])
      case None => Framed([], true)
      case Some(frame) =>
        var t := FrameWords(ws[1..]);
        assert Encodable(ws) <==> Encodable(ws[1..]) by {
          if Encodable(ws[1..]) {
            forall i | 0 <= i < |ws| ensures |ws[i]| < MaxWordLength {
              if i > 0 {
                assert ws[i] == ws[1..][i - 1];
              }
            }
          }
        }
        Framed(frame + t.bytes, t.tooLong)
  }

  /** The frame of a sentence whose first word fits: that word's frame, then the rest's. */
  lemma FrameCons(ws: Sentence)
    requires ws != [] && |ws[0]| < MaxWordLength
    ensures FrameWords(ws) == Framed(WordFrame(ws[0]).value + FrameWords(ws[1..]).bytes, FrameWords(ws[1..]).tooLong)
  {
  }

  /** Framing distributes over concatenation once the first part is framed in full. */
  lemma {:induction false} FrameWordsAppend(a: Sentence, b: Sentence)
    requires !FrameWords(a).tooLong
    ensures FrameWords(a + b) == Framed(FrameWords(a).bytes + FrameWords(b).bytes, FrameWords(b).tooLong)
  {
    if a == [] {
      assert a + b == b;
    } else {
      Seqs.ConcatTail(a, b);
      FrameCons(a);
      FrameWordsAppend(a[1..], b);
      FrameCons(a + b);
      Seqs.ConcatAssoc(WordFrame(a[0]).value, FrameWords(a[1..]).bytes, FrameWords(b).bytes);
    }
  }

  /** A whole outgoing sentence: every word's frame, then the zero byte. */
  function SentenceBytes(ws: Sentence): seq<Byte>
    requires Encodable(ws)
  {
    FrameWords(ws).bytes + [0]
  }

  /**
   * The sending half of communicate. On a closed socket the first sendall
   * raises OSError, unless to_bytes overflowed on the first word before it.
   */
  function Transmit(st: SocketState, ws: Sentence): (o: Outcome<()>)
    ensures o.state.input == st.input && o.state.closed == st.closed && o.state.timeout == st.timeout
    ensures st.output <= o.state.output
    ensures o.result.Ok? <==> !st.closed && Encodable(ws)
    ensures o.result.Ok? ==> o.state.output == st.output + SentenceBytes(ws)
    ensures o.result.Err? ==> WireError(o.result.error)
  {
    if st.closed then
      Outcome(Err(if ws != [] && |ws[0]| >= MaxWordLength then Overflow else SocketError), st)
    else
      var f := FrameWords(ws);
      if f.tooLong then Outcome(Err(Overflow), st.(output := st.output + f.bytes))
      else Outcome(Ok(()), st.(output := st.output + f.bytes + [0]))
  }

  // ---------------------------------------------------------------------------
  // Receiving

  /** int.from_bytes(recv(1), 'big'): the byte received, 0 for the b'' of an exhausted stream. */
  function LengthByte(chunk: seq<Byte>): (n: Byte)
    requires |chunk| <= 1
    ensures n == BigEndian(chunk)
  {
    if chunk == [] then 0 else
      assert chunk[..0] == [];
      chunk[0]
  }

  /**
   * read_sentence's inner loop, with `received` the text so far and n the
   * current rcv_length: recv the characters still missing and decode the chunk
   * strictly; a chunk that does not decode has its first byte taken as the new
   * rcv_length and the rest decoded strictly. An empty recv raises
   * RuntimeError; a rest that does not decode either raises UnicodeDecodeError.
   */
  function ReceiveWord(n: int, inp: seq<Byte>, received: string): (r: Step<string>)
    ensures |r.rest| <= |inp|
    ensures n > |received| && r.result.Ok? ==> |r.rest| < |inp|
    ensures r.result.Err? ==> r.result.error.ConnectionBroken? || r.result.error.DecodeError?
    decreases |inp|
  {
    if n <= |received| then Step(Ok(received), inp)
    else
      var k := Min(n - |received|, |inp|);
      var rec := inp[..k];
      if rec == [] then Step(Err(ConnectionBroken), inp)
      else match Utf8.DecodeStrict(rec)
        case Some(text) => ReceiveWord(n, inp[k..], received + text)
        case None =>
          match Utf8.DecodeStrict(rec[1..])
          case None => Step(Err(DecodeError), inp[k..])
          case Some(text) => ReceiveWord(rec[0], inp[k..], received + text)
  }

  /** What read_sentence returns: the words of a sentence, or the error text of a !trap reply. */
  datatype Received = Words(words: Sentence) | ErrorString(text: string)

  /** The text every error string starts with. */
  function ErrorPrefix(address: string): string {
    "Error: Host: " + address + ", RouterOS API replied: "
  }

  /**
   * The string read_sentence returns for the word after !trap: the prefix and
   * the third '='-separated field of the word; None where there is no third
   * field and indexing raises IndexError.
   */
  function TrapText(address: string, word: string): (r: Option<string>)
    ensures r.None? <==> |SplitOn(word, '=')| < 3
    ensures r.Some? ==> StartsWith(r.value, ErrorPrefix(address))
  {
    var parts := SplitOn(word, '=');
    if |parts| < 3 then None else
      var text := ErrorPrefix(address) + parts[2];
      assert text[..|ErrorPrefix(address)|] == ErrorPrefix(address);
      Some(text)
  }

  /**
   * read_sentence from its loop head, with `words` already read and `trap`
   * set when the last word was !trap; the next length byte is still to be
   * received.
   */
  function ReadWords(inp: seq<Byte>, address: string, words: Sentence, trap: bool): (r: Step<Received>)
    ensures |r.rest| <= |inp|
    ensures r.result.Ok? && r.result.value.Words? && |r.result.value.words| > |words| ==> |r.rest| < |inp|
    ensures r.result.Ok? && r.result.value.ErrorString? ==> StartsWith(r.result.value.text, ErrorPrefix(address))
    ensures r.result.Err? ==> WireError(r.result.error)
    decreases |inp|, 1
  {
    if inp == [] then Step(Ok(Words(words)), [])
    else WordsAfter(inp[0], inp[1..], address, words, trap)
  }

  /**
   * read_sentence once the length byte n has been received: zero ends the
   * sentence; otherwise the word is received, and after a !trap word the error
   * string is returned at once, with the rest of the reply left unread.
   */
  function WordsAfter(n: Byte, inp: seq<Byte>, address: string, words: Sentence, trap: bool): (r: Step<Received>)
    ensures |r.rest| <= |inp|
    ensures r.result.Ok? && r.result.value.Words? && |r.result.value.words| > |words| ==> |r.rest| < |inp|
    ensures r.result.Ok? && r.result.value.ErrorString? ==> StartsWith(r.result.value.text, ErrorPrefix(address))
    ensures r.result.Err? ==> WireError(r.result.error)
    decreases |inp|, 0
  {
    if n == 0 then Step(Ok(Words(words)), inp)
    else
      var w := ReceiveWord(n, inp, "");
      match w.result
      case Err(e) => Step(Err(e), w.rest)
      case Ok(received) =>
        if trap then
          match TrapText(address, received)
          case None => Step(Err(IndexError), w.rest)
          case Some(text) => Step(Ok(ErrorString(text)), w.rest)
        else ReadWords(w.rest, address, words + [received], received == "!trap")
  }

  /** read_sentence on a stream whose unread bytes are inp. */
  function ReadSentence(inp: seq<Byte>, address: string): Step<Received> {
    ReadWords(inp, address, [], false)
  }

  /**
   * What communicate returns: the paragraph, the error string of a !trap
   * reply, or a sentence that holds the word 'Error', which the `'Error' in
   * sentence` test also stops at.
   */
  datatype Reply = Para(sentences: Paragraph) | ErrorText(text: string) | Flagged(sentence: Sentence)

  /** `'Error' in reply`: a substring test on a str, a membership test on a list. */
  predicate HasError(reply: Reply) {
    match reply
    case Para(_) => false  // a list of lists never holds the str 'Error'
    case ErrorText(text) => Contains(text, "Error")
    case Flagged(ws) => "Error" in ws
  }

  /**
   * The receiving loop of communicate, with `current` the sentence its guard
   * tests (the outgoing sentence on entry, then the last one read) and `done`
   * the sentences collected so far.
   */
  function Collect(inp: seq<Byte>, address: string, current: Sentence, done: Paragraph): (r: Step<Reply>)
    ensures |r.rest| <= |inp|
    ensures r.result.Err? ==> WireError(r.result.error)
    decreases |inp| + (if current == [] then 0 else 1)
  {
    if current == [] then Step(Err(IndexError), inp)
    else if current[0] == "!done" then Step(Ok(Para(done)), inp)
    else
      var s := ReadSentence(inp, address);
      match s.result
      case Err(e) => Step(Err(e), s.rest)
      case Ok(ErrorString(text)) => Step(Ok(ErrorText(text)), s.rest)
      case Ok(Words(ws)) =>
        if "Error" in ws then Step(Ok(Flagged(ws)), s.rest)
        else Collect(s.rest, address, ws, done + [ws])
  }

  /**
   * Sentences after `done` that are non-empty and without the word 'Error', of
   * which the last, and only the last, starts with !done.
   */
  predicate ParagraphAfter(p: Paragraph, done: Paragraph) {
    && |p| > |done| && p[..|done|] == done
    && (forall i :: |done| <= i < |p| ==> p[i] != [] && "Error" !in p[i])
    && p[|p| - 1][0] == "!done"
    && (forall i :: |done| <= i < |p| - 1 ==> p[i][0] != "!done")
  }

  /** The shape of every paragraph communicate collects. */
  predicate IsParagraph(p: Paragraph) {
    ParagraphAfter(p, [])
  }

  /**
   * What communicate's loop stops at: a paragraph that ends at its only !done
   * sentence, an error string, or a sentence holding 'Error'; in each case
   * `'Error' in reply` holds exactly when the reply is not a paragraph.
   */
  lemma {:induction false} CollectShape(inp: seq<Byte>, address: string, current: Sentence, done: Paragraph)
    requires current != [] && current[0] != "!done"
    ensures var r := Collect(inp, address, current, done).result;
      && (r.Ok? && r.value.Para? ==> ParagraphAfter(r.value.sentences, done))
      && (r.Ok? && r.value.ErrorText? ==> StartsWith(r.value.text, ErrorPrefix(address)))
      && (r.Ok? && r.value.Flagged? ==> "Error" in r.value.sentence)
    decreases |inp|
  {
    var s := ReadSentence(inp, address);
    if s.result.Ok? && s.result.value.Words? {
      var ws := s.result.value.words;
      if "Error" !in ws && ws != [] {
        var more := done + [ws];
        if ws[0] == "!done" {
          assert more[..|done|] == done;
        } else {
          CollectShape(s.rest, address, ws, more);
          var r := Collect(s.rest, address, ws, more).result;
          if r.Ok? && r.value.Para? {
            ParagraphAfterStep(r.value.sentences, done, ws);
          }
        }
      }
    }
  }

  lemma ParagraphAfterStep(p: Paragraph, done: Paragraph, ws: Sentence)
    requires ws != [] && ws[0] != "!done" && "Error" !in ws
    requires ParagraphAfter(p, done + [ws])
    ensures ParagraphAfter(p, done)
  {
    var more := done + [ws];
    assert p[..|done|] == more[..|done|] == done;
    assert p[|done|] == more[|done|] == ws;
  }

  /** An error string holds 'Error'. */
  lemma ErrorTextHasError(address: string, text: string)
    requires StartsWith(text, ErrorPrefix(address))
    ensures Contains(text, "Error")
  {
    assert text[..5] == ErrorPrefix(address)[..5] == "Error";
  }

  /**
   * communicate(ws) on socket state st: send the sentence, then collect the
   * reply. An outgoing sentence that starts with !done returns an empty
   * paragraph without reading; otherwise a returned paragraph ends at its only
   * !done sentence, and `'Error' in reply` holds exactly for the replies that
   * are not paragraphs.
   */
  function Exchange(st: SocketState, address: string, ws: Sentence): (o: Outcome<Reply>)
    ensures o.state.closed == st.closed && o.state.timeout == st.timeout
    ensures st.output <= o.state.output
    ensures |o.state.input| <= |st.input|
    ensures o.result.Ok? ==> !st.closed && ws != []
    ensures o.result.Ok? ==> Encodable(ws) && o.state.output == st.output + SentenceBytes(ws)
    ensures o.result.Err? ==> WireError(o.result.error)
    ensures o.result.Ok? ==> (HasError(o.result.value) <==> !o.result.value.Para?)
    ensures o.result.Ok? && o.result.value.ErrorText? ==> StartsWith(o.result.value.text, ErrorPrefix(address))
    ensures o.result.Ok? && o.result.value.Para? && ws[0] != "!done" ==> IsParagraph(o.result.value.sentences)
  {
    var t := Transmit(st, ws);
    if t.result.Err? then
      Outcome(Err(t.result.error), t.state)
    else
      var c := Collect(t.state.input, address, ws, []);
      CollectReply(t.state.input, address, ws);
      Outcome(c.result, t.state.(input := c.rest))
  }

  /** The facts of Exchange's contract about the collected reply. */
  lemma CollectReply(inp: seq<Byte>, address: string, ws: Sentence)
    ensures var r := Collect(inp, address, ws, []).result;
      && (r.Ok? ==> (HasError(r.value) <==> !r.value.Para?))
      && (r.Ok? && r.value.ErrorText? ==> StartsWith(r.value.text, ErrorPrefix(address)))
      && (r.Ok? && r.value.Para? && ws != [] && ws[0] != "!done" ==> IsParagraph(r.value.sentences))
  {
    if ws != [] && ws[0] != "!done" {
      CollectShape(inp, address, ws, []);
      var r := Collect(inp, address, ws, []).result;
      if r.Ok? && r.value.ErrorText? {
        ErrorTextHasError(address, r.value.text);
      }
    }
  }

  // ---------------------------------------------------------------------------
  // Reading back what the router frames

  /** A word the router can send and this client reads back unchanged: non-empty ASCII, under 256 characters. */
  predicate WireWord(w: string) {
    w != "" && Utf8.IsAscii(w) && |w| < MaxWordLength
  }

  predicate WireSentence(ws: Sentence) {
    forall i :: 0 <= i < |ws| ==> WireWord(ws[i])
  }

  /** Round trip of one word: the chunk of n ASCII bytes decodes strictly to the word. */
  lemma ReceiveAscii(w: string, tail: seq<Byte>)
    requires WireWord(w)
    ensures ReceiveWord(|w|, Utf8.Encode(w) + tail, "") == Step(Ok(w), tail)
  {
    var e := Utf8.Encode(w);
    assert (e + tail)[..|w|] == e && (e + tail)[|w|..] == tail;
    Utf8.DecodeEncode(w);
    assert "" + w == w;
  }

  /**
   * read_sentence reads one framed word: after a !trap word it returns the
   * error text made from this word, otherwise it goes on right after the word.
   */
  lemma ReadWordsStep(w: string, tail: seq<Byte>, address: string, words: Sentence, trap: bool)
    requires WireWord(w)
    ensures ReadWords(WordFrame(w).value + tail, address, words, trap) ==
      if !trap then ReadWords(tail, address, words + [w], w == "!trap")
      else if TrapText(address, w).None? then Step(Err(IndexError), tail)
      else Step(Ok(ErrorString(TrapText(address, w).value)), tail)
  {
    var inp := WordFrame(w).value + tail;
    assert inp[0] == |w| && inp[1..] == Utf8.Encode(w) + tail;
    ReceiveAscii(w, tail);
  }

  /** A sentence's bytes are its first word's frame followed by the rest of the sentence's bytes. */
  lemma SentenceBytesCons(ws: Sentence, rest: seq<Byte>)
    requires ws != [] && Encodable(ws)
    ensures Encodable(ws[1..])
    ensures SentenceBytes(ws) + rest == WordFrame(ws[0]).value + (SentenceBytes(ws[1..]) + rest)
  {
    assert |ws[0]| < MaxWordLength;
    forall i | 0 <= i < |ws[1..]| ensures ws[1..][i] == ws[i + 1] {
    }
    var frame := WordFrame(ws[0]).value;
    assert FrameWords(ws).bytes == frame + FrameWords(ws[1..]).bytes;
  }

  lemma WireTail(ws: Sentence)
    requires ws != [] && WireSentence(ws)
    ensures WireSentence(ws[1..]) && Encodable(ws) && WireWord(ws[0])
    ensures "!trap" !in ws ==> "!trap" !in ws[1..] && ws[0] != "!trap"
  {
    forall i | 0 <= i < |ws[1..]| ensures ws[1..][i] == ws[i + 1] {
    }
  }

  lemma ConsWords(ws: Sentence, words: Sentence)
    requires ws != []
    ensures words + [ws[0]] + ws[1..] == words + ws
  {
    assert [ws[0]] + ws[1..] == ws;
  }

  /** The zero byte that ends a framed sentence ends read_sentence. */
  lemma ReadWordsEnd(address: string, words: Sentence, trap: bool, rest: seq<Byte>)
    ensures ReadWords(SentenceBytes([]) + rest, address, words, trap) == Step(Ok(Words(words)), rest)
  {
    assert (SentenceBytes([]) + rest)[1..] == rest;
  }

  /**
   * Round trip of read_sentence: a framed sentence of non-empty ASCII words
   * without !trap is read back word for word, and reading stops after its zero
   * byte.
   */
  lemma {:induction false} ReadWordsFramed(ws: Sentence, address: string, words: Sentence, rest: seq<Byte>)
    requires WireSentence(ws) && "!trap" !in ws
    ensures Encodable(ws)
    ensures ReadWords(SentenceBytes(ws) + rest, address, words, false) == Step(Ok(Words(words + ws)), rest)
    decreases |ws|
  {
    if ws == [] {
      ReadWordsEnd(address, words, false, rest);
      assert words + ws == words;
    } else {
      WireTail(ws);
      SentenceBytesCons(ws, rest);
      ReadWordsStep(ws[0], SentenceBytes(ws[1..]) + rest, address, words, false);
      ReadWordsFramed(ws[1..], address, words + [ws[0]], rest);
      ConsWords(ws, words);
    }
  }

  /**
   * A !trap sentence: read_sentence returns the error text made from the word
   * after !trap (IndexError where it has no third '='-separated field) and
   * leaves the rest of the sentence unread.
   */
  lemma ReadTrap(w: string, ws: Sentence, address: string, rest: seq<Byte>)
    requires WireWord(w) && WireSentence(ws)
    ensures Encodable(["!trap", w] + ws) && Encodable(ws)
    ensures ReadSentence(SentenceBytes(["!trap", w] + ws) + rest, address) ==
      if TrapText(address, w).None? then Step(Err(IndexError), SentenceBytes(ws) + rest)
      else Step(Ok(ErrorString(TrapText(address, w).value)), SentenceBytes(ws) + rest)
  {
    var all := ["!trap", w] + ws;
    assert all[1..] == [w] + ws && ([w] + ws)[1..] == ws;
    assert WireSentence(all) by {
      assert WireWord("!trap") by {
        assert "!trap"[0] as int < 0x80;
      }
      forall i | 0 <= i < |all| ensures WireWord(all[i]) {
        if i >= 2 {
          assert all[i] == ws[i - 2];
        }
      }
    }
    WireTail(all);
    WireTail([w] + ws);
    SentenceBytesCons(all, rest);
    SentenceBytesCons([w] + ws, rest);
    var tail := SentenceBytes(ws) + rest;
    ReadWordsStep("!trap", WordFrame(w).value + tail, address, [], false);
    ReadWordsStep(w, tail, address, ["!trap"], true);
  }

  /** The error text of the usual trap word '=message=' + m is the prefix and m. */
  lemma TrapMessage(address: string, m: string)
    requires '=' !in m
    ensures TrapText(address, "=message=" + m) == Some(ErrorPrefix(address) + m)
  {
    var parts := ["", "message", m];
    assert JoinOn(parts, '=') == "=message=" + m by {
      assert parts[1..][1..] == [m];
      assert JoinOn(parts[1..], '=') == "message" + "=" + m;
      assert JoinOn(parts, '=') == "" + "=" + ("message" + "=" + m);
    }
    SplitOnJoin(parts, '=');
  }

  /** WireSentence, stated sentence by sentence for a reply paragraph without !trap or 'Error' words. */
  predicate FramedParagraph(p: Paragraph)
    decreases |p|
  {
    && p != [] && p[0] != [] && WireSentence(p[0]) && "!trap" !in p[0] && "Error" !in p[0]
    && if |p| == 1 then p[0][0] == "!done" else p[0][0] != "!done" && FramedParagraph(p[1..])
  }

  /** The bytes of a paragraph: its sentences' bytes one after another. */
  function ParagraphBytes(p: Paragraph): seq<Byte>
    requires FramedParagraph(p)
    decreases |p|
  {
    ReadWordsFramed(p[0], "", [], []);
    if |p| == 1 then SentenceBytes(p[0]) else SentenceBytes(p[0]) + ParagraphBytes(p[1..])
  }

  lemma AppendFirst(done: Paragraph, p: Paragraph)
    requires p != []
    ensures done + [p[0]] + p[1..] == done + p
    ensures |p| == 1 ==> done + [p[0]] == done + p
  {
    assert [p[0]] + p[1..] == p;
  }

  /** communicate's loop reads the first sentence of a framed paragraph and moves on to the rest. */
  lemma CollectStep(p: Paragraph, address: string, current: Sentence, done: Paragraph, tail: seq<Byte>)
    requires FramedParagraph(p) && current != [] && current[0] != "!done"
    ensures Collect(SentenceBytes(p[0]) + tail, address, current, done) == Collect(tail, address, p[0], done + [p[0]])
  {
    ReadWordsFramed(p[0], address, [], tail);
    assert [] + p[0] == p[0];
  }

  /**
   * Round trip of communicate's loop: a framed paragraph is collected in full,
   * and nothing after it is read.
   */
  lemma {:induction false} CollectFramed(p: Paragraph, address: string, current: Sentence, done: Paragraph, rest: seq<Byte>)
    requires FramedParagraph(p) && current != [] && current[0] != "!done"
    ensures Collect(ParagraphBytes(p) + rest, address, current, done) == Step(Ok(Para(done + p)), rest)
    decreases |p|
  {
    AppendFirst(done, p);
    if |p| == 1 {
      CollectStep(p, address, current, done, rest);
    } else {
      var tail := ParagraphBytes(p[1..]) + rest;
      assert ParagraphBytes(p) + rest == SentenceBytes(p[0]) + tail;
      CollectStep(p, address, current, done, tail);
      CollectFramed(p[1..], address, p[0], done + [p[0]], rest);
    }
  }

  /**
   * Round trip of communicate: on an open socket whose peer answers with the
   * framed paragraph p, the sentence goes out framed and exactly p is read back.
   */
  lemma ExchangeFramed(st: SocketState, address: string, ws: Sentence, p: Paragraph, rest: seq<Byte>)
    requires !st.closed && Encodable(ws) && ws != [] && ws[0] != "!done"
    requires FramedParagraph(p) && st.input == ParagraphBytes(p) + rest
    ensures Exchange(st, address, ws) == Outcome(Ok(Para(p)), st.(output := st.output + SentenceBytes(ws), input := rest))
  {
    CollectFramed(p, address, ws, [], rest);
    assert [] + p == p;
  }

  /**
   * The loop guard tests the outgoing sentence first: one that starts with
   * !done is sent and an empty paragraph returned, with nothing read.
   */
  lemma ExchangeDoneFirst(st: SocketState, address: string, ws: Sentence)
    requires !st.closed && Encodable(ws) && ws != [] && ws[0] == "!done"
    ensures Exchange(st, address, ws) == Outcome(Ok(Para([])), st.(output := st.output + SentenceBytes(ws)))
  {
  }

  /** An empty sentence: the zero byte is sent, then the loop guard raises IndexError. */
  lemma ExchangeEmpty(st: SocketState, address: string)
    requires !st.closed
    ensures Exchange(st, address, []) == Outcome(Err(IndexError), st.(output := st.output + [0]))
  {
  }

  /**
   * A !trap reply: communicate returns the error text of the word after !trap
   * (IndexError where it has no third field), and the rest of the trap sentence
   * is left unread.
   */
  lemma ExchangeTrap(st: SocketState, address: string, ws: Sentence, w: string, more: Sentence, rest: seq<Byte>)
    requires !st.closed && Encodable(ws) && ws != [] && ws[0] != "!done"
    requires WireWord(w) && WireSentence(more)
    requires Encodable(["!trap", w] + more) && Encodable(more)
    requires st.input == SentenceBytes(["!trap", w] + more) + rest
    ensures var o := st.(output := st.output + SentenceBytes(ws), input := SentenceBytes(more) + rest);
      Exchange(st, address, ws) ==
        if TrapText(address, w).None? then Outcome(Err(IndexError), o)
        else Outcome(Ok(ErrorText(TrapText(address, w).value)), o)
  {
    ReadTrap(w, more, address, rest);
  }

  /**
   * The prefix counts characters while the payload is UTF-8 bytes, so a
   * non-ASCII word is not read back: "é" (one character, two bytes) is framed
   * as 01 C3 A9 00. The reader's one-byte chunk C3 does not decode, so C3 (195)
   * becomes the length; the next chunk A9 00 does not decode either, so A9
   * (169) becomes the length with "\0" received, and the exhausted stream
   * raises RuntimeError.
   */
  lemma NonAsciiWordMisread(address: string)
    ensures Encodable(["é"]) && SentenceBytes(["é"]) == [0x01, 0xC3, 0xA9, 0x00]
    ensures ReadSentence(SentenceBytes(["é"]), address) == Step(Err(ConnectionBroken), [])
  {
    AcuteFrame();
    AcuteReceived();
    var inp: seq<Byte> := [0x01, 0xC3, 0xA9, 0x00];
    assert inp[1..] == [0xC3, 0xA9, 0x00];
  }

  lemma AcuteFrame()
    ensures Encodable(["é"]) && SentenceBytes(["é"]) == [0x01, 0xC3, 0xA9, 0x00]
  {
    var w := "é";
    assert |w| == 1 && w[0] as int == 0xE9;
    assert Utf8.EncodeChar(w[0]) == [0xC3, 0xA9];
    assert Utf8.Encode(w) == [0xC3, 0xA9];
    assert FrameWords([w]) == Framed([0x01, 0xC3, 0xA9], false);
  }

  /** The chunks the reader gets from 01 C3 A9 00 after the length byte. */
  lemma AcuteChunks()
    ensures Utf8.DecodeStrict([0xC3]) == None && Utf8.DecodeStrict([]) == Some("")
    ensures Utf8.DecodeStrict([0xA9, 0x00]) == None && Utf8.DecodeStrict([0x00]) == Some("\0")
  {
    var z: seq<Byte> := [0x00];
    assert Utf8.SequenceLength(z) == 1 && z[1..] == [];
    assert Utf8.DecodeChar(z) == '\0';
    assert [Utf8.DecodeChar(z)] + "" == "\0";
  }

  lemma AcuteReceived()
    ensures ReceiveWord(1, [0xC3, 0xA9, 0x00], "") == Step(Err(ConnectionBroken), [])
  {
    AcuteChunks();
    var first: seq<Byte> := [0xC3];
    var second: seq<Byte> := [0xA9, 0x00];
    assert first[1..] == [] && second[1..] == [0x00];
    assert [0xC3, 0xA9, 0x00][..1] == first && [0xC3, 0xA9, 0x00][1..] == second;
    assert ReceiveWord(0xA9, [], "\0") == Step(Err(ConnectionBroken), []);
    assert ReceiveWord(0xC3, second, "") == ReceiveWord(0xA9, [], "" + "\0") by {
      assert second[..2] == second && second[2..] == [];
    }
    assert "" + "\0" == "\0";
  }
}
