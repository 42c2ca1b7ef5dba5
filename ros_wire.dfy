/**
 * The wire half of ros_api/api.py's Api.communicate: framing an outgoing
 * sentence (send_length plus the UTF-8 payload, then a zero byte), reading a
 * sentence (read_sentence) and collecting the paragraph up to the sentence
 * that starts with !done. Each operation is a function of the socket state;
 * the methods of RosApi.Api are proved to behave exactly as these functions.
 */
module RosWire {
  import opened Wrappers
  import Seqs
  import opened Bytes
  import opened Sockets
  import opened LengthCodec
  import Utf8

  /** A sentence is a list of words; a paragraph the list of sentences of one reply. */
  type Sentence = seq<string>
  type Paragraph = seq<Sentence>

  /** The exceptions the client raises. */
  datatype Error =
    | WordTooLong                              // send_length: a word of 2^32 characters or more
    | ConnectionBroken                         // RuntimeError('socket connection broken')
    | SocketError                              // OSError: the socket is closed
    | LengthTypeError                          // TypeError: a length byte 0xF1..0xFF left as bytes
    | IndexError                               // a reply sentence with no words
    | LoginRejected(reply: Paragraph)          // LoginError(reply) for a !trap login reply
    | LoginUnexpected(reply: Paragraph)        // LoginError('Unexpected reply to login: ...')
    | BadChallenge                             // unhexlify rejected the =ret= challenge
    | TrapError(command: Sentence, reply: Paragraph)  // RouterOSTrapError
    | MissingEquals                            // ValueError: an attribute word without '='
    | UnsupportedMessage                       // TypeError from talk

  /** The exceptions communicate itself can raise. */
  predicate WireError(e: Error) {
    e.WordTooLong? || e.ConnectionBroken? || e.SocketError? || e.LengthTypeError? || e.IndexError?
  }

  /** What an operation returns or raises, and the socket state it leaves. */
  datatype Outcome<T> = Outcome(result: Result<T, Error>, state: SocketState)

  /** What a read returns or raises, and the bytes still unread. */
  datatype Step<T> = Step(result: Result<T, Error>, rest: seq<Byte>)

  /** The bytes one word puts on the wire: send_length's prefix, then the word's UTF-8 bytes. */
  function WordFrame(w: string): (r: Option<seq<Byte>>)
    ensures r.None? <==> |w| >= MaxWordLength
  {
    match EncodeLength(|w|)
    case None => None
    case Some(p) => Some(p + Utf8.Encode(w))
  }

  /** The bytes written for some words, and whether a word too long to frame stopped the writing. */
  datatype Framed = Framed(bytes: seq<Byte>, tooLong: bool)

  predicate Encodable(ws: Sentence) {
    forall i :: 0 <= i < |ws| ==> |ws[i]| < MaxWordLength
  }

  /**
   * The word loop of communicate: each word's frame in order, up to the first
   * word that raises WordTooLong, whose prefix is never written.
   */
  function FrameWords(ws: Sentence): (f: Framed)
    ensures f.tooLong <==> !Encodable(ws)
  {
    if ws == [] then Framed([], false)
    else match WordFrame(ws[0])
      case None => Framed([], true)
      case Some(frame) =>
        var t := FrameWords(ws[1..]);
        assert Encodable(ws) <==> Encodable(ws[1..]) by {
          if Encodable(ws[1..]) {
            forall i | 0 <= i < |ws| ensures |ws[i]| < MaxWordLength {
              if i > 0 {
                assert ws[i] == ws[1..][i - 1];
              }
            }
          }
        }
        Framed(frame + t.bytes, t.tooLong)
  }

  /** The frame of a sentence whose first word fits: that word's frame, then the rest's. */
  lemma FrameCons(ws: Sentence)
    requires ws != [] && |ws[0]| < MaxWordLength
    ensures FrameWords(ws) == Framed(WordFrame(ws[0]).value + FrameWords(ws[1..]).bytes, FrameWords(ws[1..]).tooLong)
  {
  }

  /** Framing distributes over concatenation once the first part is framed in full. */
  lemma {:induction false} FrameWordsAppend(a: Sentence, b: Sentence)
    requires !FrameWords(a).tooLong
    ensures FrameWords(a + b) == Framed(FrameWords(a).bytes + FrameWords(b).bytes, FrameWords(b).tooLong)
  {
    if a == [] {
      assert a + b == b;
    } else {
      Seqs.ConcatTail(a, b);
      FrameCons(a);
      FrameWordsAppend(a[1..], b);
      FrameCons(a + b);
      Seqs.ConcatAssoc(WordFrame(a[0]).value, FrameWords(a[1..]).bytes, FrameWords(b).bytes);
    }
  }

  /** A whole outgoing sentence: every word's frame, then the zero-length terminator. */
  function SentenceBytes(ws: Sentence): seq<Byte>
    requires Encodable(ws)
  {
    FrameWords(ws).bytes + [0]
  }

  /**
   * The sending half of communicate. On a closed socket the first sendall
   * raises OSError, unless send_length raised WordTooLong before it.
   */
  function Transmit(st: SocketState, ws: Sentence): (o: Outcome<()>)
    ensures o.state.input == st.input && o.state.closed == st.closed && o.state.timeout == st.timeout
    ensures st.output <= o.state.output
    ensures o.result.Ok? <==> !st.closed && Encodable(ws)
    ensures o.result.Ok? ==> o.state.output == st.output + SentenceBytes(ws)
    ensures o.result.Err? ==> WireError(o.result.error)
  {
    if st.closed then
      Outcome(Err(if ws != [] && |ws[0]| >= MaxWordLength then WordTooLong else SocketError), st)
    else
      var f := FrameWords(ws);
      if f.tooLong then Outcome(Err(WordTooLong), st.(output := st.output + f.bytes))
      else Outcome(Ok(()), st.(output := st.output + f.bytes + [0]))
  }

  /**
   * read_sentence from its loop head, with `words` already read and the next
   * length still to be received.
   */
  function ReadWords(inp: seq<Byte>, words: Sentence): (r: Step<Sentence>)
    ensures |r.rest| <= |inp|
    ensures r.result.Ok? ==> |r.result.value| >= |words| && r.result.value[..|words|] == words
    ensures r.result.Ok? && |r.result.value| > |words| ==> |r.rest| < |inp|
    ensures r.result.Err? ==> WireError(r.result.error)
    decreases |inp|, 1
  {
    var len := ReceiveLength(inp);
    WordsAfter(len.value, len.rest, words)
  }

  /**
   * read_sentence once the length `len` has been received and `inp` is what
   * follows it: a zero length ends the sentence, a length byte that matched no
   * form raises TypeError at the loop guard, a word whose bytes run past the end
   * of the stream raises RuntimeError (after its bytes have been consumed), and a
   * word is its bytes decoded with backslashreplace. A negative length reads an
   * empty word.
   */
  function WordsAfter(len: LengthValue, inp: seq<Byte>, words: Sentence): (r: Step<Sentence>)
    requires len.Num? && len.n < 0 ==> inp == []
    ensures |r.rest| <= |inp|
    ensures r.result.Ok? ==> |r.result.value| >= |words| && r.result.value[..|words|] == words
    ensures r.result.Ok? && |r.result.value| > |words| ==> |r.rest| < |inp| || (len.Num? && len.n < 0)
    ensures r.result.Err? ==> WireError(r.result.error)
    decreases |inp| + (if len.Num? && len.n < 0 then 1 else 0), 0
  {
    match len
    case Unmatched(_) => Step(Err(LengthTypeError), inp)
    case Num(n) =>
      if n == 0 then Step(Ok(words), inp)
      else if n > |inp| then Step(Err(ConnectionBroken), [])
      else
        var k := if n < 0 then 0 else n;
        var more := words + [Utf8.DecodeReplace(inp[..k])];
        var r := ReadWords(inp[k..], more);
        assert more[..|words|] == words;
        assert r.result.Ok? ==> r.result.value[..|words|] == r.result.value[..|more|][..|words|];
        r
  }

  /** read_sentence on a stream whose unread bytes are inp. */
  function ReadSentence(inp: seq<Byte>): Step<Sentence> {
    ReadWords(inp, [])
  }

  /**
   * The receiving loop of communicate, with the sentences `done` already
   * collected: read sentences until one starts with !done, which is kept. An
   * empty sentence raises IndexError at the loop guard.
   */
  function ReadSentences(inp: seq<Byte>, done: Paragraph): (r: Step<Paragraph>)
    ensures |r.rest| <= |inp|
    ensures r.result.Ok? ==> |r.rest| < |inp|
    ensures r.result.Err? ==> WireError(r.result.error)
    decreases |inp|
  {
    var s := ReadSentence(inp);
    match s.result
    case Err(e) => Step(Err(e), s.rest)
    case Ok(words) =>
      if words == [] then Step(Err(IndexError), s.rest)
      else if words[0] == "!done" then Step(Ok(done + [words]), s.rest)
      else ReadSentences(s.rest, done + [words])
  }

  /** Sentences after `done` that are non-empty, and of which the last, and only the last, starts with !done. */
  predicate ParagraphAfter(p: Paragraph, done: Paragraph) {
    && |p| > |done| && p[..|done|] == done
    && (forall i :: |done| <= i < |p| ==> p[i] != [])
    && p[|p| - 1][0] == "!done"
    && (forall i :: |done| <= i < |p| - 1 ==> p[i][0] != "!done")
  }

  /** communicate's loop collects a paragraph that ends at its only !done sentence and has no empty sentence. */
  lemma {:induction false} ReadSentencesShape(inp: seq<Byte>, done: Paragraph)
    ensures ReadSentences(inp, done).result.Ok? ==> ParagraphAfter(ReadSentences(inp, done).result.value, done)
    decreases |inp|
  {
    var s := ReadSentence(inp);
    if ReadSentences(inp, done).result.Ok? {
      assert s.result.Ok?;
      var words := s.result.value;
      assert words != [];
      var p := ReadSentences(inp, done).result.value;
      if words[0] == "!done" {
        assert p == done + [words];
        assert p[..|done|] == done;
      } else {
        var more := done + [words];
        assert ReadSentences(inp, done) == ReadSentences(s.rest, more);
        ReadSentencesShape(s.rest, more);
        ParagraphAfterStep(p, done, words);
      }
    }
  }

  lemma ParagraphAfterStep(p: Paragraph, done: Paragraph, words: Sentence)
    requires words != [] && words[0] != "!done"
    requires ParagraphAfter(p, done + [words])
    ensures ParagraphAfter(p, done)
  {
    var more := done + [words];
    assert p[..|done|] == more[..|done|] == done;
    assert p[|done|] == more[|done|] == words;
  }

  /** The paragraph communicate reads from the stream inp. */
  function ReadParagraph(inp: seq<Byte>): Step<Paragraph> {
    ReadSentences(inp, [])
  }

  /**
   * communicate(ws) on socket state st: send the sentence, then read the reply
   * paragraph. A returned paragraph is non-empty, has no empty sentence, and
   * ends at its only !done sentence; something was read to obtain it.
   */
  function Exchange(st: SocketState, ws: Sentence): (o: Outcome<Paragraph>)
    ensures o.state.closed == st.closed && o.state.timeout == st.timeout
    ensures st.output <= o.state.output
    ensures |o.state.input| <= |st.input|
    ensures !st.closed && Encodable(ws) ==> o.state.output == st.output + SentenceBytes(ws)
    ensures o.result.Ok? ==> |o.state.input| < |st.input|
    ensures o.result.Ok? ==> !st.closed && Encodable(ws) && IsParagraph(o.result.value)
    ensures o.result.Err? ==> WireError(o.result.error)
  {
    var t := Transmit(st, ws);
    if t.result.Err? then
      Outcome(Err(t.result.error), t.state)
    else
      var p := ReadParagraph(t.state.input);
      ReadSentencesShape(t.state.input, []);
      Outcome(p.result, t.state.(input := p.rest))
  }

  /** The shape of every paragraph communicate returns. */
  predicate IsParagraph(p: Paragraph) {
    ParagraphAfter(p, [])
  }

  // ---------------------------------------------------------------------------
  // Reading back what the router frames

  /**
   * A word the router can send: non-empty, since a zero length ends the
   * sentence, and with fewer than 2^32 UTF-8 bytes.
   */
  predicate WireWord(w: string) {
    w != "" && |Utf8.Encode(w)| < MaxWordLength
  }

  /** The router's frame of a word: a length prefix that counts the word's UTF-8 bytes, then those bytes. */
  function PeerFrame(w: string): seq<Byte>
    requires WireWord(w)
  {
    EncodeLength(|Utf8.Encode(w)|).value + Utf8.Encode(w)
  }

  predicate WireSentence(ws: Sentence) {
    forall i :: 0 <= i < |ws| ==> WireWord(ws[i])
  }

  /** The router's bytes for a sentence: each word's frame, then the zero-length terminator. */
  function PeerSentenceBytes(ws: Sentence): seq<Byte>
    requires WireSentence(ws)
    decreases |ws|
  {
    if ws == [] then [0] else PeerFrame(ws[0]) + PeerSentenceBytes(ws[1..])
  }

  /** A reply paragraph made of words the router can send. */
  predicate WireParagraph(p: Paragraph) {
    IsParagraph(p) && forall i :: 0 <= i < |p| ==> WireSentence(p[i])
  }

  /** WireParagraph stated sentence by sentence: every sentence but the last is a non-!done one. */
  predicate FramedParagraph(p: Paragraph)
    decreases |p|
  {
    && p != [] && p[0] != [] && WireSentence(p[0])
    && if |p| == 1 then p[0][0] == "!done" else p[0][0] != "!done" && FramedParagraph(p[1..])
  }

  /** The two statements of a well-formed wire paragraph agree. */
  lemma {:induction false} WireParagraphFramed(p: Paragraph)
    requires WireParagraph(p)
    ensures FramedParagraph(p)
    decreases |p|
  {
    if |p| > 1 {
      ParagraphTail(p);
      WireParagraphFramed(p[1..]);
    }
  }

  /** The bytes of a paragraph as the router sends it: its sentences' bytes one after another. */
  function ParagraphBytes(p: Paragraph): seq<Byte>
    requires FramedParagraph(p)
    decreases |p|
  {
    if |p| == 1 then PeerSentenceBytes(p[0]) else PeerSentenceBytes(p[0]) + ParagraphBytes(p[1..])
  }

  /** A sentence's bytes are its first word's frame followed by the rest of the sentence's bytes. */
  lemma SentenceBytesCons(ws: Sentence)
    requires ws != [] && Encodable(ws)
    ensures Encodable(ws[1..])
    ensures SentenceBytes(ws) == WordFrame(ws[0]).value + SentenceBytes(ws[1..])
  {
    assert |ws[0]| < MaxWordLength;
    forall i | 0 <= i < |ws[1..]| ensures ws[1..][i] == ws[i + 1] {
    }
    FrameCons(ws);
    Seqs.ConcatAssoc(WordFrame(ws[0]).value, FrameWords(ws[1..]).bytes, [0]);
  }

  /** For a word of ASCII characters the client frames as the router does: characters and bytes agree. */
  lemma AsciiFrameAgrees(w: string)
    requires w != "" && Utf8.IsAscii(w) && |w| < MaxWordLength
    ensures WireWord(w) && WordFrame(w) == Some(PeerFrame(w))
  {
  }

  /** A sentence of non-empty ASCII words leaves the client exactly as the router would frame it. */
  lemma {:induction false} AsciiSentenceAgrees(ws: Sentence)
    requires forall i :: 0 <= i < |ws| ==> ws[i] != "" && Utf8.IsAscii(ws[i]) && |ws[i]| < MaxWordLength
    ensures Encodable(ws) && WireSentence(ws) && SentenceBytes(ws) == PeerSentenceBytes(ws)
    decreases |ws|
  {
    if ws != [] {
      AsciiFrameAgrees(ws[0]);
      AsciiSentenceAgrees(ws[1..]);
      SentenceBytesCons(ws);
    }
  }

  /** read_sentence reads one word of the router's framing back and continues right after it. */
  lemma ReadWordsStep(w: string, tail: seq<Byte>, words: Sentence)
    requires WireWord(w)
    ensures ReadWords(PeerFrame(w) + tail, words) == ReadWords(tail, words + [w])
  {
    var e := Utf8.Encode(w);
    var inp := PeerFrame(w) + tail;
    assert inp == EncodeLength(|e|).value + (e + tail);
    LengthRoundTrip(|e|, e + tail);
    assert ReceiveLength(inp) == LengthRead(Num(|e|), e + tail);
    assert (e + tail)[..|e|] == e && (e + tail)[|e|..] == tail;
    Utf8.DecodeEncode(w);
    Utf8.DecodeReplaceAgrees(e);
    assert Utf8.DecodeReplace(e) == w;
  }

  /**
   * Round trip: read_sentence reads back every sentence of non-empty words
   * the router frames, whatever their characters, and stops after its terminator.
   */
  lemma {:induction false} ReadWordsFramed(ws: Sentence, words: Sentence, rest: seq<Byte>)
    requires WireSentence(ws)
    ensures ReadWords(PeerSentenceBytes(ws) + rest, words) == Step(Ok(words + ws), rest)
    decreases |ws|
  {
    if ws == [] {
      ReadWordsEnd(words, rest);
      assert words + ws == words;
    } else {
      var tail := PeerSentenceBytes(ws[1..]) + rest;
      Seqs.ConcatAssoc(PeerFrame(ws[0]), PeerSentenceBytes(ws[1..]), rest);
      ReadWordsStep(ws[0], tail, words);
      ReadWordsFramed(ws[1..], words + [ws[0]], rest);
      ConsWords(ws, words);
    }
  }

  lemma ConsWords(ws: Sentence, words: Sentence)
    requires ws != []
    ensures words + [ws[0]] + ws[1..] == words + ws
  {
    assert [ws[0]] + ws[1..] == ws;
  }

  /** The zero byte that ends a sentence ends read_sentence and leaves what follows unread. */
  lemma ReadWordsEnd(words: Sentence, rest: seq<Byte>)
    ensures ReadWords([0] + rest, words) == Step(Ok(words), rest)
  {
    LengthRoundTrip(0, rest);
    assert EncodeLength(0).value == [0];
  }

  /** A framed sentence that is not the last one moves communicate's loop on to the next sentence. */
  lemma ReadSentencesStep(ws: Sentence, tail: seq<Byte>, done: Paragraph)
    requires WireSentence(ws) && ws != []
    ensures ws[0] == "!done" ==> ReadSentences(PeerSentenceBytes(ws) + tail, done) == Step(Ok(done + [ws]), tail)
    ensures ws[0] != "!done" ==> ReadSentences(PeerSentenceBytes(ws) + tail, done) == ReadSentences(tail, done + [ws])
  {
    ReadWordsFramed(ws, [], tail);
    assert [] + ws == ws;
  }

  /** Round trip: communicate's receiving loop reads back a framed well-formed paragraph and nothing after it. */
  lemma {:induction false} ReadSentencesFramed(p: Paragraph, done: Paragraph, rest: seq<Byte>)
    requires FramedParagraph(p)
    ensures ReadSentences(ParagraphBytes(p) + rest, done) == Step(Ok(done + p), rest)
    decreases |p|
  {
    AppendFirst(done, p);
    if |p| > 1 {
      ReadSentencesNext(p, done, rest);
      ReadSentencesFramed(p[1..], done + [p[0]], rest);
    } else {
      ReadSentencesStep(p[0], rest, done);
    }
  }

  /**
   * Round trip of communicate: on an open socket whose peer answers with the
   * framed paragraph p, the sentence goes out framed and exactly p is read back.
   */
  lemma ExchangeFramed(st: SocketState, ws: Sentence, p: Paragraph, rest: seq<Byte>)
    requires !st.closed && Encodable(ws)
    requires FramedParagraph(p) && st.input == ParagraphBytes(p) + rest
    ensures Exchange(st, ws) == Outcome(Ok(p), st.(output := st.output + SentenceBytes(ws), input := rest))
  {
    ReadSentencesFramed(p, [], rest);
    assert [] + p == p;
  }

  lemma AppendFirst(done: Paragraph, p: Paragraph)
    requires p != []
    ensures done + [p[0]] + p[1..] == done + p
    ensures |p| == 1 ==> done + [p[0]] == done + p
  {
    assert [p[0]] + p[1..] == p;
  }

  /** Reading a framed paragraph of several sentences reads its first sentence, then the rest. */
  lemma ReadSentencesNext(p: Paragraph, done: Paragraph, rest: seq<Byte>)
    requires FramedParagraph(p) && |p| > 1
    ensures ReadSentences(ParagraphBytes(p) + rest, done) == ReadSentences(ParagraphBytes(p[1..]) + rest, done + [p[0]])
  {
    var tail := ParagraphBytes(p[1..]) + rest;
    assert ParagraphBytes(p) + rest == PeerSentenceBytes(p[0]) + tail;
    ReadSentencesStep(p[0], tail, done);
  }

  /** Past its first sentence, a framed paragraph of several sentences is still one. */
  lemma ParagraphTail(p: Paragraph)
    requires WireParagraph(p) && |p| > 1
    ensures p[0][0] != "!done" && WireParagraph(p[1..])
  {
    var q := p[1..];
    assert q[|q| - 1] == p[|p| - 1];
    forall i | 0 <= i < |q| ensures q[i] != [] && WireSentence(q[i]) {
      assert q[i] == p[i + 1];
    }
    forall i | 0 <= i < |q| - 1 ensures q[i][0] != "!done" {
      assert q[i] == p[i + 1];
    }
  }

  /**
   * The prefix counts characters while the payload is UTF-8 bytes, so a
   * non-ASCII word is not read back: "é" (one character, two bytes) is framed
   * as 01 C3 A9 00; the reader takes C3 as the word and A9 00 as a 10496-byte
   * length that the stream cannot supply.
   */
  lemma NonAsciiWordMisread()
    ensures SentenceBytes(["é"]) == [0x01, 0xC3, 0xA9, 0x00]
    ensures ReadSentence(SentenceBytes(["é"])) == Step(Err(ConnectionBroken), [])
  {
    var w := "é";
    assert |w| == 1 && w[0] as int == 0xE9;
    assert Utf8.EncodeChar(w[0]) == [0xC3, 0xA9];
    assert Utf8.Encode(w) == [0xC3, 0xA9];
    assert FrameWords([w]) == Framed([0x01, 0xC3, 0xA9], false);
    var inp: seq<Byte> := [0x01, 0xC3, 0xA9, 0x00];
    assert ReceiveLength(inp) == LengthRead(Num(1), [0xC3, 0xA9, 0x00]);
    var after: seq<Byte> := [0xA9, 0x00];
    assert [0xC3, 0xA9, 0x00][1..] == after;
    assert BigEndian([0xA9, 0x00]) == 0xA900 by {
      assert [0xA9, 0x00][..1] == [0xA9];
    }
    assert Take(after, 1) == [0xA9];
    assert [0xA9] + Take(after[1..], 1) == [0xA9, 0x00];
    assert ReceiveLength(after) == LengthRead(Num(0x2900), []);
  }
}
