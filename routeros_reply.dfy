/**
 * What routeros_api.py does with communicate's reply, as functions of the
 * socket state: login (whose legacy branch returns the second reply
 * unchecked), send (splitting a command and mapping sentences to dicts with a
 * strict split on '=') and talk. The methods of RouterosApi.Api are proved to
 * behave as these do.
 */
module RouterosReply {
  import opened Wrappers
  import opened Bytes
  import opened Sockets
  import opened RouterosWire
  import opened Dicts
  import opened Text
  import opened LoginWords
  import Hex
  import Utf8

  // ---------------------------------------------------------------------------
  // Login

  /**
   * login: send the name and password and look at the reply. A paragraph
   * whose first sentence is exactly ['!done'] is returned. An error text
   * raises LoginError('Login ' + text) and a sentence holding 'Error' the
   * TypeError of 'Login ' + list: those are exactly the replies for which
   * `'Error' in reply` holds (Exchange's contract). A first sentence of two
   * words whose second starts with '=ret=' is answered with the legacy
   * response, and that reply is returned unchecked. Any other paragraph
   * returns None.
   */
  function Login(st: SocketState, address: string, user: string, password: string, md5: seq<Byte> -> seq<Byte>): (o: Outcome<Option<Reply>>)
    ensures st.output <= o.state.output
    ensures o.state.closed == st.closed && o.state.timeout == st.timeout
    ensures o.result.Err? && o.result.error.LoginError? ==> StartsWith(o.result.error.message, "Login " + ErrorPrefix(address))
    ensures o.result == Ok(None) ==>
      Encodable(LoginSentence(user, password)) && o.state.output == st.output + SentenceBytes(LoginSentence(user, password))
  {
    var o := Exchange(st, address, LoginSentence(user, password));
    if o.result.Err? then Outcome(Err(o.result.error), o.state)
    else LoginReply(o.state, address, o.result.value, user, password, md5)
  }

  /** login once communicate has returned the first reply. */
  function LoginReply(st: SocketState, address: string, reply: Reply, user: string, password: string, md5: seq<Byte> -> seq<Byte>): (o: Outcome<Option<Reply>>)
    requires reply.Para? ==> reply.sentences != []
    requires reply.ErrorText? ==> StartsWith(reply.text, ErrorPrefix(address))
    ensures st.output <= o.state.output
    ensures o.state.closed == st.closed && o.state.timeout == st.timeout
    ensures o.result.Err? && o.result.error.LoginError? ==> StartsWith(o.result.error.message, "Login " + ErrorPrefix(address))
    ensures o.result == Ok(None) ==> o.state == st
  {
    match reply
    case ErrorText(text) =>
      LoginMessage(address, text);
      Outcome(Err(LoginError("Login " + text)), st)
    case Flagged(_) => Outcome(Err(LoginTypeError), st)
    case Para(p) =>
      if p[0] == ["!done"] then Outcome(Ok(Some(reply)), st)
      else if |p[0]| == 2 && StartsWith(p[0][1], "=ret=") then
        LegacyLogin(st, address, p[0][1][5..], user, password, md5)
      else Outcome(Ok(None), st)
  }

  /**
   * The pre-6.43 branch of login: the challenge token is answered with the
   * MD5 response sentence, and the reply to that is returned unchecked.
   */
  function LegacyLogin(st: SocketState, address: string, token: string, user: string, password: string,
                       md5: seq<Byte> -> seq<Byte>): (o: Outcome<Option<Reply>>)
    ensures st.output <= o.state.output
    ensures o.state.closed == st.closed && o.state.timeout == st.timeout
    ensures o.result.Ok? ==> o.result.value.Some?
    ensures o.result.Err? ==> o.result.error == BadChallenge || WireError(o.result.error)
  {
    match ChallengeResponse(user, password, token, md5)
    case None => Outcome(Err(BadChallenge), st)
    case Some(response) =>
      var legacy := Exchange(st, address, response);
      Outcome(if legacy.result.Ok? then Ok(Some(legacy.result.value)) else Err(legacy.result.error), legacy.state)
  }

  lemma LoginMessage(address: string, text: string)
    requires StartsWith(text, ErrorPrefix(address))
    ensures StartsWith("Login " + text, "Login " + ErrorPrefix(address))
  {
    assert ("Login " + text)[..6 + |ErrorPrefix(address)|] == "Login " + text[..|ErrorPrefix(address)|];
  }

  /** A router that accepts the password: login returns its ['!done'] reply. */
  lemma LoginAccepted(st: SocketState, address: string, user: string, password: string, md5: seq<Byte> -> seq<Byte>, rest: seq<Byte>)
    requires !st.closed && Encodable(LoginSentence(user, password))
    requires FramedParagraph([["!done"]]) && st.input == ParagraphBytes([["!done"]]) + rest
    ensures Login(st, address, user, password, md5) ==
      Outcome(Ok(Some(Para([["!done"]]))), st.(output := st.output + SentenceBytes(LoginSentence(user, password)), input := rest))
  {
    ExchangeFramed(st, address, LoginSentence(user, password), [["!done"]], rest);
  }

  /**
   * A router that traps the login with '=message=' + m: login raises
   * LoginError carrying the router's message.
   */
  lemma LoginTrapped(st: SocketState, address: string, user: string, password: string, md5: seq<Byte> -> seq<Byte>,
                     m: string, more: Sentence, rest: seq<Byte>)
    requires !st.closed && Encodable(LoginSentence(user, password))
    requires '=' !in m && WireWord("=message=" + m) && WireSentence(more)
    requires Encodable(["!trap", "=message=" + m] + more) && Encodable(more)
    requires st.input == SentenceBytes(["!trap", "=message=" + m] + more) + rest
    ensures Login(st, address, user, password, md5).result == Err(LoginError("Login " + ErrorPrefix(address) + m))
  {
    ExchangeTrap(st, address, LoginSentence(user, password), "=message=" + m, more, rest);
    TrapMessage(address, m);
    assert "Login " + (ErrorPrefix(address) + m) == "Login " + ErrorPrefix(address) + m;
  }

  /**
   * A legacy router: a first sentence ['!done', '=ret=' + challenge] is
   * answered with the MD5 response sentence, and whatever paragraph p2 comes
   * back is returned as it is, even one whose first sentence is not ['!done'].
   */
  lemma LoginLegacy(st: SocketState, address: string, user: string, password: string, md5: seq<Byte> -> seq<Byte>,
                    p1: Paragraph, p2: Paragraph, response: Sentence, rest: seq<Byte>)
    requires !st.closed && Encodable(LoginSentence(user, password))
    requires FramedParagraph(p1) && |p1[0]| == 2 && StartsWith(p1[0][1], "=ret=")
    requires ChallengeResponse(user, password, p1[0][1][5..], md5) == Some(response) && Encodable(response)
    requires FramedParagraph(p2) && st.input == ParagraphBytes(p1) + (ParagraphBytes(p2) + rest)
    ensures Login(st, address, user, password, md5) ==
      Outcome(Ok(Some(Para(p2))), st.(output := st.output + SentenceBytes(LoginSentence(user, password)) + SentenceBytes(response), input := rest))
  {
    var login := LoginSentence(user, password);
    ExchangeFramed(st, address, login, p1, ParagraphBytes(p2) + rest);
    var next := st.(output := st.output + SentenceBytes(login), input := ParagraphBytes(p2) + rest);
    ExchangeFramed(next, address, response, p2, rest);
  }

  /** Any other first reply sentence: login returns None, and sends nothing more. */
  lemma LoginOther(st: SocketState, address: string, user: string, password: string, md5: seq<Byte> -> seq<Byte>,
                   p: Paragraph, rest: seq<Byte>)
    requires !st.closed && Encodable(LoginSentence(user, password))
    requires FramedParagraph(p) && st.input == ParagraphBytes(p) + rest
    requires p[0] != ["!done"] && !(|p[0]| == 2 && StartsWith(p[0][1], "=ret="))
    ensures Login(st, address, user, password, md5) ==
      Outcome(Ok(None), st.(output := st.output + SentenceBytes(LoginSentence(user, password)), input := rest))
  {
    ExchangeFramed(st, address, LoginSentence(user, password), p, rest);
  }

  // ---------------------------------------------------------------------------
  // send and talk

  /**
   * One attribute word as send unpacks it, `k, v = x[1:].split('=')`: the
   * text after the first character must hold exactly one '=', and None stands
   * for the ValueError of unpacking any other number of parts.
   */
  function Attribute(w: string): (r: Option<(string, string)>)
    ensures r.Some? ==> '=' !in r.value.0 && '=' !in r.value.1 && r.value.0 + "=" + r.value.1 == DropFirst(w)
  {
    var parts := SplitOn(DropFirst(w), '=');
    if |parts| == 2 then
      assert JoinOn(parts, '=') == parts[0] + "=" + parts[1];
      Some((parts[0], parts[1]))
    else None
  }

  /** A word unpacks exactly when the text after its first character holds exactly one '='. */
  lemma AttributeUnpacks(w: string)
    ensures Attribute(w).Some? <==> multiset(DropFirst(w))['='] == 1
  {
    SplitOnCount(DropFirst(w), '=');
  }

  /** The word '=' + k + '=' + v of a key and a value without '=' unpacks to them. */
  lemma AttributeOfPair(k: string, v: string)
    requires '=' !in k && '=' !in v
    ensures Attribute("=" + k + "=" + v) == Some((k, v))
  {
    var w := "=" + k + "=" + v;
    assert DropFirst(w) == k + "=" + v;
    assert JoinOn([k, v], '=') == k + "=" + v;
    SplitOnJoin([k, v], '=');
  }

  /** A value that holds '=' makes the word fail to unpack. */
  lemma EqualsInValue(k: string, v: string)
    requires '=' in v
    ensures Attribute("=" + k + "=" + v) == None
  {
    var w := "=" + k + "=" + v;
    assert DropFirst(w) == k + "=" + v;
    assert multiset(k + "=" + v) == multiset(k) + multiset("=") + multiset(v);
    assert multiset(v)['='] >= 1;
    AttributeUnpacks(w);
  }

  /** The words of a sentence after the first, as reply[m][1:] gives them. */
  function AttributeWords(sentence: Sentence): Sentence {
    if sentence == [] then [] else sentence[1..]
  }

  /** Entering the attribute words ws into d in order; ValueError at the first word that does not unpack. */
  function Fill(d: Dict, ws: Sentence): (r: Result<Dict, Error>)
    ensures r.Err? ==> r.error == ValueError
    decreases |ws|
  {
    if ws == [] then Ok(d)
    else match Attribute(ws[0])
      case None => Err(ValueError)
      case Some(kv) => Fill(Put(d, kv.0, kv.1), ws[1..])
  }

  /** Filling fails exactly when some attribute word does not unpack. */
  lemma {:induction false} FillFails(d: Dict, ws: Sentence)
    ensures Fill(d, ws).Err? <==> exists i :: 0 <= i < |ws| && Attribute(ws[i]).None?
    decreases |ws|
  {
    if ws != [] && Attribute(ws[0]).Some? {
      var kv := Attribute(ws[0]).value;
      FillFails(Put(d, kv.0, kv.1), ws[1..]);
      if exists i :: 0 <= i < |ws| && Attribute(ws[i]).None? {
        var i :| 0 <= i < |ws| && Attribute(ws[i]).None?;
        assert ws[1..][i - 1] == ws[i];
      }
      if exists i :: 0 <= i < |ws[1..]| && Attribute(ws[1..][i]).None? {
        var i :| 0 <= i < |ws[1..]| && Attribute(ws[1..][i]).None?;
        assert ws[i + 1] == ws[1..][i];
      }
    }
  }

  /** The value of the last attribute word in ws with key k: a reference for what the dict holds. */
  function LastValue(ws: Sentence, k: string): Option<string>
    decreases |ws|
  {
    if ws == [] then None
    else
      var later := LastValue(ws[1..], k);
      if later.Some? then later
      else match Attribute(ws[0])
        case Some(kv) => if kv.0 == k then Some(kv.1) else None
        case None => None
  }

  /** A later duplicate key overwrites an earlier one: each key holds the value of its last word. */
  lemma {:induction false} FillLookup(d: Dict, ws: Sentence, k: string)
    requires Fill(d, ws).Ok?
    ensures Lookup(Fill(d, ws).value, k) == if LastValue(ws, k).Some? then LastValue(ws, k) else Lookup(d, k)
    decreases |ws|
  {
    if ws != [] {
      var kv := Attribute(ws[0]).value;
      FillLookup(Put(d, kv.0, kv.1), ws[1..], k);
      PutLookup(d, kv.0, kv.1, k);
    }
  }

  /** The dict send builds from one reply sentence. */
  function Record(sentence: Sentence): Result<Dict, Error> {
    Fill([], AttributeWords(sentence))
  }

  /** The dicts of the given sentences, in order; the first failing sentence's error otherwise. */
  function Records(sentences: seq<Sentence>): Result<seq<Dict>, Error> {
    MapResults(Record, sentences)
  }

  /** nice_reply: the dicts of every sentence of a reply but the last (range(len(reply) - 1)). */
  function RecordsBeforeDone(reply: Paragraph): Result<seq<Dict>, Error> {
    Records(if reply == [] then [] else reply[..|reply| - 1])
  }

  /**
   * The dicts are built exactly when every attribute word of every sentence
   * unpacks, and then there is one dict per sentence, in order.
   */
  lemma RecordsEach(sentences: seq<Sentence>)
    ensures Records(sentences).Ok? <==>
      forall i, j :: 0 <= i < |sentences| && 0 <= j < |AttributeWords(sentences[i])| ==>
        Attribute(AttributeWords(sentences[i])[j]).Some?
    ensures Records(sentences).Ok? ==> |Records(sentences).value| == |sentences|
    ensures Records(sentences).Ok? ==>
      forall i :: 0 <= i < |sentences| ==> Ok(Records(sentences).value[i]) == Record(sentences[i])
    ensures Records(sentences).Err? ==> Records(sentences).error == ValueError
  {
    MapResultsEach(Record, sentences);
    forall i | 0 <= i < |sentences|
      ensures Record(sentences[i]).Ok? <==>
        forall j :: 0 <= j < |AttributeWords(sentences[i])| ==> Attribute(AttributeWords(sentences[i])[j]).Some?
    {
      FillFails([], AttributeWords(sentences[i]));
    }
    if Records(sentences).Err? {
      RecordsError(sentences);
    }
  }

  lemma {:induction false} RecordsError(sentences: seq<Sentence>)
    ensures Records(sentences).Err? ==> Records(sentences).error == ValueError
    decreases |sentences|
  {
    if sentences != [] {
      RecordsError(sentences[..|sentences| - 1]);
    }
  }

  /** What send returns: a reply that holds 'Error', as it is, or the dicts of a paragraph. */
  datatype Answer = Verbatim(reply: Reply) | Table(records: seq<Dict>)

  /**
   * send: split the command on whitespace and exchange it; a reply for which
   * `'Error' in reply` holds is returned as it is, and a paragraph becomes one
   * dict per sentence but the last.
   */
  function Send(st: SocketState, address: string, command: string): (o: Outcome<Answer>)
    ensures st.output <= o.state.output
    ensures o.state.closed == st.closed && o.state.timeout == st.timeout
    ensures o.result.Ok? && o.result.value.Verbatim? ==> HasError(o.result.value.reply)
    ensures o.result.Err? && !WireError(o.result.error) ==> o.result.error == ValueError
  {
    var o := Exchange(st, address, Split(command));
    Outcome(if o.result.Ok? then Tabulate(o.result.value) else Err(o.result.error), o.state)
  }

  /** The part of send after communicate: a reply with 'Error' as it is, a paragraph as dicts. */
  function Tabulate(reply: Reply): (r: Result<Answer, Error>)
    requires !HasError(reply) ==> reply.Para?
    ensures r.Ok? && r.value.Verbatim? ==> HasError(r.value.reply)
    ensures r.Err? ==> r.error == ValueError
  {
    if HasError(reply) then Ok(Verbatim(reply))
    else
      var nice := RecordsBeforeDone(reply.sentences);
      RecordsError(if reply.sentences == [] then [] else reply.sentences[..|reply.sentences| - 1]);
      if nice.Ok? then Ok(Table(nice.value)) else Err(nice.error)
  }

  /**
   * send end to end: on an open socket whose peer answers with the framed
   * paragraph p, the command's words go out framed, the whole reply is read,
   * and the result is one dict per sentence before the final !done, or
   * ValueError.
   */
  lemma SendTable(st: SocketState, address: string, command: string, p: Paragraph, rest: seq<Byte>)
    requires !st.closed && Encodable(Split(command)) && Split(command) != [] && Split(command)[0] != "!done"
    requires FramedParagraph(p) && st.input == ParagraphBytes(p) + rest
    ensures var o := Send(st, address, command);
      && o.state == st.(output := st.output + SentenceBytes(Split(command)), input := rest)
      && o.result == if Records(p[..|p| - 1]).Ok? then Ok(Table(Records(p[..|p| - 1]).value)) else Err(ValueError)
  {
    ExchangeFramed(st, address, Split(command), p, rest);
    RecordsError(p[..|p| - 1]);
  }

  /** A command whose first word is !done is sent, and send returns no dicts without reading. */
  lemma SendDoneFirst(st: SocketState, address: string, command: string)
    requires !st.closed && Encodable(Split(command)) && Split(command) != [] && Split(command)[0] == "!done"
    ensures Send(st, address, command) ==
      Outcome(Ok(Table([])), st.(output := st.output + SentenceBytes(Split(command))))
  {
    ExchangeDoneFirst(st, address, Split(command));
  }

  /** A command of no words: the zero byte is sent, then IndexError. */
  lemma SendBlank(st: SocketState, address: string, command: string)
    requires !st.closed && Split(command) == []
    ensures Send(st, address, command) == Outcome(Err(IndexError), st.(output := st.output + [0]))
  {
    ExchangeEmpty(st, address);
  }

  /** talk's argument: a str, a list, or anything else without a `split` method; list elements likewise. */
  datatype Message = StrMessage(s: string) | ListMessage(items: seq<Message>) | OtherMessage

  /** What talk returns: send's answer for a str, the answers for a list, None otherwise. */
  datatype TalkReply = One(answer: Answer) | Many(answers: seq<Answer>) | Nothing

  /**
   * talk's loop over a list: send each of `items` in turn, each on the socket
   * state the previous one left, after the answers `done`; an element that is
   * not a str raises AttributeError at its split(), and the first error stops
   * the loop.
   */
  function SendEach(st: SocketState, address: string, items: seq<Message>, done: seq<Answer>): (o: Outcome<seq<Answer>>)
    ensures st.output <= o.state.output
    ensures o.state.closed == st.closed && o.state.timeout == st.timeout
    ensures o.result.Ok? ==> |o.result.value| == |done| + |items| && o.result.value[..|done|] == done
    ensures o.result.Ok? ==> forall i :: 0 <= i < |items| ==> items[i].StrMessage?
    ensures items != [] && o.result.Ok? ==> Send(st, address, items[0].s).result == Ok(o.result.value[|done|])
    ensures items != [] && !items[0].StrMessage? ==> o == Outcome(Err(AttributeError), st)
    decreases |items|
  {
    if items == [] then Outcome(Ok(done), st)
    else if !items[0].StrMessage? then Outcome(Err(AttributeError), st)
    else
      var first := Send(st, address, items[0].s);
      match first.result
      case Err(e) => Outcome(Err(e), first.state)
      case Ok(a) =>
        var o := SendEach(first.state, address, items[1..], done + [a]);
        if o.result.Ok? then
          PrefixExtend(o.result.value, done, a);
          assert forall i :: 1 <= i < |items| ==> items[i] == items[1..][i - 1];
          o
        else o
  }

  lemma PrefixExtend<T>(a: seq<T>, done: seq<T>, x: T)
    requires |a| >= |done| + 1 && a[..|done| + 1] == done + [x]
    ensures a[..|done|] == done && a[|done|] == x
  {
    assert a[..|done|] == a[..|done| + 1][..|done|];
  }

  /** talk: one send for a str, one per element for a list, None for anything else. */
  function Talk(st: SocketState, address: string, m: Message): (o: Outcome<TalkReply>)
    ensures m.OtherMessage? ==> o == Outcome(Ok(Nothing), st)
    ensures m.StrMessage? ==> o.state == Send(st, address, m.s).state
    ensures m.StrMessage? && o.result.Ok? ==> o.result.value.One? && Send(st, address, m.s).result == Ok(o.result.value.answer)
    ensures m.ListMessage? && o.result.Ok? ==> o.result.value.Many? && |o.result.value.answers| == |m.items|
    ensures m.StrMessage? ==> (o.result ==
      if Send(st, address, m.s).result.Ok? then Ok(One(Send(st, address, m.s).result.value)) else Err(Send(st, address, m.s).result.error))
    ensures m.ListMessage? ==> o.state == SendEach(st, address, m.items, []).state
    ensures m.ListMessage? ==> (o.result ==
      if SendEach(st, address, m.items, []).result.Ok? then Ok(Many(SendEach(st, address, m.items, []).result.value)) else Err(SendEach(st, address, m.items, []).result.error))
  {
    match m
    case StrMessage(s) =>
      var o := Send(st, address, s);
      Outcome(if o.result.Ok? then Ok(One(o.result.value)) else Err(o.result.error), o.state)
    case ListMessage(items) =>
      var o := SendEach(st, address, items, []);
      Outcome(if o.result.Ok? then Ok(Many(o.result.value)) else Err(o.result.error), o.state)
    case OtherMessage =>
      Outcome(Ok(Nothing), st)
  }
}
