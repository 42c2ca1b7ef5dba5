/**
 * What ros_api/api.py does with a reply paragraph, as functions of the socket
 * state: the login exchange (check_reply, reply_has_error, process_old_login),
 * send (splitting a command, detecting !trap, mapping sentences to dicts), talk
 * and is_alive. The methods of RosApi.Api are proved to behave as these do.
 */
module RosReply {
  import opened Wrappers
  import opened Bytes
  import opened Sockets
  import opened RosWire
  import opened Dicts
  import opened Text
  import opened LoginWords
  import Hex
  import Utf8

  // ---------------------------------------------------------------------------
  // Login

  /** How check_reply reads the first sentence of a login reply. */
  datatype LoginStep =
    | Accepted                  // exactly ['!done']
    | Refused                   // reply_has_error: two words, the first '!trap'
    | Challenge(token: string)  // two words, the second '=ret=' + hex challenge
    | Unexpected

  function ClassifyLogin(first: Sentence): LoginStep {
    if |first| == 1 && first[0] == "!done" then Accepted
    else if |first| == 2 && first[0] == "!trap" then Refused
    else if |first| == 2 && StartsWith(first[1], "=ret=") then Challenge(first[1][5..])
    else Unexpected
  }

  /**
   * check_reply on a reply paragraph received while the socket was left in
   * state st: accept, reject, or answer a challenge and check the new reply.
   * A first sentence ['!done'] returns the reply, a two-word !trap sentence
   * raises LoginRejected on it, an unrecognised one LoginUnexpected, all with
   * the socket untouched; a challenge that unhexlify rejects raises
   * BadChallenge. Conversely it succeeds only with a reply whose first
   * sentence is exactly ['!done'], and fails with LoginRejected or
   * LoginUnexpected only on a reply of that kind.
   */
  function CheckReply(st: SocketState, reply: Paragraph, user: string, password: string, md5: seq<Byte> -> seq<Byte>): (o: Outcome<Paragraph>)
    requires IsParagraph(reply)
    ensures ClassifyLogin(reply[0]) == Accepted ==> o == Outcome(Ok(reply), st)
    ensures ClassifyLogin(reply[0]) == Refused ==> o == Outcome(Err(LoginRejected(reply)), st)
    ensures ClassifyLogin(reply[0]) == Unexpected ==> o == Outcome(Err(LoginUnexpected(reply)), st)
    ensures ClassifyLogin(reply[0]).Challenge? && ChallengeResponse(user, password, ClassifyLogin(reply[0]).token, md5).None? ==>
      o == Outcome(Err(BadChallenge), st)
    ensures st.output <= o.state.output
    ensures o.state.closed == st.closed && o.state.timeout == st.timeout
    ensures o.result.Ok? ==> IsParagraph(o.result.value) && o.result.value[0] == ["!done"]
    ensures o.result.Err? && o.result.error.LoginRejected? ==>
      IsParagraph(o.result.error.reply) && ClassifyLogin(o.result.error.reply[0]) == Refused
    ensures o.result.Err? && o.result.error.LoginUnexpected? ==>
      IsParagraph(o.result.error.reply) && ClassifyLogin(o.result.error.reply[0]) == Unexpected
    decreases |st.input|, 1
  {
    match ClassifyLogin(reply[0])
    case Accepted => Outcome(Ok(reply), st)
    case Refused => Outcome(Err(LoginRejected(reply)), st)
    case Unexpected => Outcome(Err(LoginUnexpected(reply)), st)
    case Challenge(token) =>
      match ChallengeResponse(user, password, token, md5)
      case None => Outcome(Err(BadChallenge), st)
      case Some(response) => Recheck(st, response, user, password, md5)
  }

  /** process_old_login once the response sentence is built: exchange it and check the router's answer. */
  function Recheck(st: SocketState, response: Sentence, user: string, password: string, md5: seq<Byte> -> seq<Byte>): (o: Outcome<Paragraph>)
    ensures st.output <= o.state.output
    ensures o.state.closed == st.closed && o.state.timeout == st.timeout
    ensures o.result.Ok? ==> IsParagraph(o.result.value) && o.result.value[0] == ["!done"]
    ensures o.result.Err? && o.result.error.LoginRejected? ==>
      IsParagraph(o.result.error.reply) && ClassifyLogin(o.result.error.reply[0]) == Refused
    ensures o.result.Err? && o.result.error.LoginUnexpected? ==>
      IsParagraph(o.result.error.reply) && ClassifyLogin(o.result.error.reply[0]) == Unexpected
    decreases |st.input|, 0
  {
    var o := Exchange(st, response);
    match o.result
    case Err(e) => Outcome(Err(e), o.state)
    case Ok(next) => CheckReply(o.state, next, user, password, md5)
  }

  /**
   * login: send the login sentence and check the reply; the outcomes are
   * check_reply's. On an open socket the login sentence is the first thing written.
   */
  function Login(st: SocketState, user: string, password: string, md5: seq<Byte> -> seq<Byte>): (o: Outcome<Paragraph>)
    ensures !st.closed && Encodable(LoginSentence(user, password)) ==>
      st.output + SentenceBytes(LoginSentence(user, password)) <= o.state.output
    ensures st.output <= o.state.output
    ensures o.state.closed == st.closed && o.state.timeout == st.timeout
    ensures o.result.Ok? ==> IsParagraph(o.result.value) && o.result.value[0] == ["!done"]
    ensures o.result.Err? && o.result.error.LoginRejected? ==>
      IsParagraph(o.result.error.reply) && ClassifyLogin(o.result.error.reply[0]) == Refused
    ensures o.result.Err? && o.result.error.LoginUnexpected? ==>
      IsParagraph(o.result.error.reply) && ClassifyLogin(o.result.error.reply[0]) == Unexpected
  {
    var o := Exchange(st, LoginSentence(user, password));
    match o.result
    case Err(e) => Outcome(Err(e), o.state)
    case Ok(reply) => CheckReply(o.state, reply, user, password, md5)
  }

  /**
   * A challenge is answered on the wire: when the first reply sentence is
   * ['!done', '=ret=' + token] and the socket is open, the next bytes the
   * client writes are exactly the framed response sentence.
   */
  lemma ChallengeAnswered(st: SocketState, reply: Paragraph, user: string, password: string, md5: seq<Byte> -> seq<Byte>)
    requires IsParagraph(reply) && ClassifyLogin(reply[0]).Challenge?
    requires !st.closed
    requires ChallengeResponse(user, password, ClassifyLogin(reply[0]).token, md5).Some?
    requires Encodable(ChallengeResponse(user, password, ClassifyLogin(reply[0]).token, md5).value)
    ensures var response := ChallengeResponse(user, password, ClassifyLogin(reply[0]).token, md5).value;
      st.output + SentenceBytes(response) <= CheckReply(st, reply, user, password, md5).state.output
  {
    var response := ChallengeResponse(user, password, ClassifyLogin(reply[0]).token, md5).value;
    var o := Exchange(st, response);
    assert o.state.output == st.output + SentenceBytes(response);
  }

  /**
   * The challenge branch of check_reply: the response sentence is exchanged
   * and the router's answer to it goes through check_reply again.
   */
  lemma ChallengeRechecked(st: SocketState, reply: Paragraph, user: string, password: string, md5: seq<Byte> -> seq<Byte>,
                           response: Sentence, p: Paragraph, rest: seq<Byte>)
    requires IsParagraph(reply) && ClassifyLogin(reply[0]).Challenge?
    requires ChallengeResponse(user, password, ClassifyLogin(reply[0]).token, md5) == Some(response)
    requires !st.closed && Encodable(response)
    requires FramedParagraph(p) && st.input == ParagraphBytes(p) + rest
    ensures IsParagraph(p)
    ensures CheckReply(st, reply, user, password, md5) ==
      CheckReply(st.(output := st.output + SentenceBytes(response), input := rest), p, user, password, md5)
  {
    ExchangeFramed(st, response, p, rest);
  }

  /** login end to end when the router accepts the login sentence with ['!done']. */
  lemma LoginAccepted(st: SocketState, user: string, password: string, md5: seq<Byte> -> seq<Byte>, rest: seq<Byte>)
    requires !st.closed && Encodable(LoginSentence(user, password))
    requires FramedParagraph([["!done"]]) && st.input == ParagraphBytes([["!done"]]) + rest
    ensures Login(st, user, password, md5) ==
      Outcome(Ok([["!done"]]), st.(output := st.output + SentenceBytes(LoginSentence(user, password)), input := rest))
  {
    ExchangeFramed(st, LoginSentence(user, password), [["!done"]], rest);
  }

  /** login end to end when the router answers with a two-word !trap sentence: LoginError on that reply. */
  lemma LoginRefused(st: SocketState, user: string, password: string, md5: seq<Byte> -> seq<Byte>, p: Paragraph, rest: seq<Byte>)
    requires !st.closed && Encodable(LoginSentence(user, password))
    requires FramedParagraph(p) && st.input == ParagraphBytes(p) + rest
    requires |p[0]| == 2 && p[0][0] == "!trap"
    ensures Login(st, user, password, md5) ==
      Outcome(Err(LoginRejected(p)), st.(output := st.output + SentenceBytes(LoginSentence(user, password)), input := rest))
  {
    ExchangeFramed(st, LoginSentence(user, password), p, rest);
  }

  /** login end to end when the router answers with a sentence check_reply does not recognise. */
  lemma LoginUnrecognised(st: SocketState, user: string, password: string, md5: seq<Byte> -> seq<Byte>, p: Paragraph, rest: seq<Byte>)
    requires !st.closed && Encodable(LoginSentence(user, password))
    requires FramedParagraph(p) && st.input == ParagraphBytes(p) + rest
    requires p[0] != ["!done"] && !(|p[0]| == 2 && (p[0][0] == "!trap" || StartsWith(p[0][1], "=ret=")))
    ensures Login(st, user, password, md5) ==
      Outcome(Err(LoginUnexpected(p)), st.(output := st.output + SentenceBytes(LoginSentence(user, password)), input := rest))
  {
    ExchangeFramed(st, LoginSentence(user, password), p, rest);
  }

  /**
   * login end to end with the legacy challenge: the router answers the login
   * sentence with ['!done', '=ret=' + token], the client sends the response
   * sentence, and the router's second paragraph is checked in turn.
   */
  lemma LoginChallenged(st: SocketState, user: string, password: string, md5: seq<Byte> -> seq<Byte>,
                        p1: Paragraph, response: Sentence, p2: Paragraph, rest: seq<Byte>)
    requires !st.closed && Encodable(LoginSentence(user, password))
    requires FramedParagraph(p1) && |p1[0]| == 2 && p1[0][0] != "!trap" && StartsWith(p1[0][1], "=ret=")
    requires ChallengeResponse(user, password, p1[0][1][5..], md5) == Some(response) && Encodable(response)
    requires FramedParagraph(p2) && st.input == ParagraphBytes(p1) + (ParagraphBytes(p2) + rest)
    ensures IsParagraph(p2)
    ensures Login(st, user, password, md5) ==
      CheckReply(st.(output := st.output + SentenceBytes(LoginSentence(user, password)) + SentenceBytes(response), input := rest),
                 p2, user, password, md5)
  {
    var sent := st.(output := st.output + SentenceBytes(LoginSentence(user, password)), input := ParagraphBytes(p2) + rest);
    ExchangeFramed(st, LoginSentence(user, password), p1, ParagraphBytes(p2) + rest);
    ChallengeRechecked(sent, p1, user, password, md5, response, p2, rest);
  }

  // ---------------------------------------------------------------------------
  // send and talk

  /** A command as send receives it: a string to split on whitespace, or words already split. */
  datatype Command = Text(s: string) | Words(ws: Sentence)

  function CommandWords(c: Command): Sentence {
    match c
    case Text(s) => Split(s)
    case Words(ws) => ws
  }

  /**
   * One attribute word of a reply sentence as send reads it: the text after its
   * first character, split at the first '='; None where there is no '=' and
   * Python's unpacking raises ValueError.
   */
  function Attribute(w: string): (r: Option<(string, string)>)
    ensures r.None? <==> '=' !in DropFirst(w)
    ensures r.Some? ==> '=' !in r.value.0 && r.value.0 + "=" + r.value.1 == DropFirst(w)
  {
    var parts := SplitOnce(DropFirst(w), '=');
    if |parts| == 1 then None else Some((parts[0], parts[1]))
  }

  /** The words of a sentence after the first, as reply[m][1:] gives them. */
  function AttributeWords(sentence: Sentence): Sentence {
    if sentence == [] then [] else sentence[1..]
  }

  /** Entering the attribute words ws into d in order; MissingEquals at the first word without '='. */
  function Fill(d: Dict, ws: Sentence): (r: Result<Dict, Error>)
    ensures r.Err? ==> r.error == MissingEquals
    decreases |ws|
  {
    if ws == [] then Ok(d)
    else match Attribute(ws[0])
      case None => Err(MissingEquals)
      case Some(kv) =>
        Fill(Put(d, kv.0, kv.1), ws[1..])
  }

  /** Filling fails exactly when some attribute word has no '='. */
  lemma {:induction false} FillFails(d: Dict, ws: Sentence)
    ensures Fill(d, ws).Err? <==> exists i :: 0 <= i < |ws| && Attribute(ws[i]).None?
    decreases |ws|
  {
    if ws != [] && Attribute(ws[0]).Some? {
      var kv := Attribute(ws[0]).value;
      FillFails(Put(d, kv.0, kv.1), ws[1..]);
      if exists i :: 0 <= i < |ws| && Attribute(ws[i]).None? {
        var i :| 0 <= i < |ws| && Attribute(ws[i]).None?;
        assert ws[1..][i - 1] == ws[i];
      }
      if exists i :: 0 <= i < |ws[1..]| && Attribute(ws[1..][i]).None? {
        var i :| 0 <= i < |ws[1..]| && Attribute(ws[1..][i]).None?;
        assert ws[i + 1] == ws[1..][i];
      }
    }
  }

  /** The dict send builds from one reply sentence. */
  function Record(sentence: Sentence): Result<Dict, Error> {
    Fill([], AttributeWords(sentence))
  }

  /** The value of the last attribute word in ws with key k: a reference for what the dict holds. */
  function LastValue(ws: Sentence, k: string): Option<string>
    decreases |ws|
  {
    if ws == [] then None
    else
      var later := LastValue(ws[1..], k);
      if later.Some? then later
      else match Attribute(ws[0])
        case Some(kv) => if kv.0 == k then Some(kv.1) else None
        case None => None
  }

  /** A later duplicate key overwrites an earlier one: each key holds the value of its last word. */
  lemma {:induction false} FillLookup(d: Dict, ws: Sentence, k: string)
    requires Fill(d, ws).Ok?
    ensures Lookup(Fill(d, ws).value, k) == if LastValue(ws, k).Some? then LastValue(ws, k) else Lookup(d, k)
    decreases |ws|
  {
    if ws != [] {
      var kv := Attribute(ws[0]).value;
      FillLookup(Put(d, kv.0, kv.1), ws[1..], k);
      PutLookup(d, kv.0, kv.1, k);
    }
  }

  /** Each dict has one entry per key. */
  lemma {:induction false} FillUnique(d: Dict, ws: Sentence)
    requires UniqueKeys(d) && Fill(d, ws).Ok?
    ensures UniqueKeys(Fill(d, ws).value)
    decreases |ws|
  {
    if ws != [] {
      var kv := Attribute(ws[0]).value;
      PutUnique(d, kv.0, kv.1);
      FillUnique(Put(d, kv.0, kv.1), ws[1..]);
    }
  }

  /** The dicts of the given sentences, in order; the first failing sentence's error otherwise. */
  function Records(sentences: seq<Sentence>): Result<seq<Dict>, Error> {
    MapResults(Record, sentences)
  }

  /** nice_reply: the dicts of every sentence of a reply but the last. */
  function RecordsBeforeDone(reply: Paragraph): Result<seq<Dict>, Error> {
    Records(if reply == [] then [] else reply[..|reply| - 1])
  }

  /**
   * send: split a string command, exchange it, raise RouterOSTrapError when the
   * first word of the reply contains '!trap', and otherwise map every sentence
   * but the final !done one to a dict.
   */
  function Send(st: SocketState, c: Command): (o: Outcome<seq<Dict>>)
    ensures st.output <= o.state.output
    ensures o.state.closed == st.closed && o.state.timeout == st.timeout
    ensures o.result.Ok? ==> !st.closed
  {
    SendWords(st, CommandWords(c))
  }

  /** send once the command is a list of words. */
  function SendWords(st: SocketState, ws: Sentence): (o: Outcome<seq<Dict>>)
    ensures st.output <= o.state.output
    ensures o.state.closed == st.closed && o.state.timeout == st.timeout
    ensures o.result.Ok? ==> !st.closed
  {
    var o := Exchange(st, ws);
    match o.result
    case Err(e) => Outcome(Err(e), o.state)
    case Ok(reply) =>
      if Contains(reply[0][0], "!trap") then Outcome(Err(TrapError(ws, reply)), o.state)
      else Outcome(RecordsBeforeDone(reply), o.state)
  }

  /** A string command sends the same words as the list of its whitespace-separated words. */
  lemma SendTextAsWords(st: SocketState, ws: Sentence)
    requires forall i :: 0 <= i < |ws| ==> ws[i] != "" && NoSpace(ws[i])
    ensures Send(st, Text(JoinSpaced(ws))) == Send(st, Words(ws))
  {
    SplitJoinSpaced(ws);
  }

  /**
   * send end to end: on an open socket whose peer replies with the framed
   * paragraph p, the command goes out framed, the whole reply is consumed, and
   * the result is RouterOSTrapError if p's first word contains '!trap' and
   * otherwise one dict per sentence before the final !done.
   */
  lemma SendReply(st: SocketState, c: Command, p: Paragraph, rest: seq<Byte>)
    requires !st.closed && Encodable(CommandWords(c))
    requires FramedParagraph(p) && st.input == ParagraphBytes(p) + rest
    ensures var o := Send(st, c);
      && o.state.output == st.output + SentenceBytes(CommandWords(c))
      && o.state.input == rest
      && (Contains(p[0][0], "!trap") ==> o.result == Err(TrapError(CommandWords(c), p)))
      && (!Contains(p[0][0], "!trap") ==> o.result == Records(p[..|p| - 1]))
  {
    ExchangeFramed(st, CommandWords(c), p, rest);
  }

  /** talk's argument: a str, a tuple of words, a list of commands, or anything else. */
  datatype Message = StrMessage(s: string) | TupleMessage(ws: Sentence) | ListMessage(items: seq<Command>) | OtherMessage

  /** What talk returns: send's result for one command, or the list of results for a list. */
  datatype TalkReply = Single(records: seq<Dict>) | Batch(replies: seq<seq<Dict>>)

  /**
   * talk's loop over a list: send each of `items` in turn, each on the socket
   * state the previous one left, after the results `done`; the first error
   * stops the loop.
   */
  function SendEach(st: SocketState, items: seq<Command>, done: seq<seq<Dict>>): (o: Outcome<seq<seq<Dict>>>)
    ensures st.output <= o.state.output
    ensures o.state.closed == st.closed && o.state.timeout == st.timeout
    ensures o.result.Ok? ==> |o.result.value| == |done| + |items| && o.result.value[..|done|] == done
    ensures items != [] && o.result.Ok? ==> Send(st, items[0]).result == Ok(o.result.value[|done|])
    decreases |items|
  {
    if items == [] then Outcome(Ok(done), st)
    else
      var first := Send(st, items[0]);
      match first.result
      case Err(e) => Outcome(Err(e), first.state)
      case Ok(ds) =>
        var o := SendEach(first.state, items[1..], done + [ds]);
        if o.result.Ok? then
          PrefixExtend(o.result.value, done, ds);
          o
        else o
  }

  lemma PrefixExtend<T>(a: seq<T>, done: seq<T>, x: T)
    requires |a| >= |done| + 1 && a[..|done| + 1] == done + [x]
    ensures a[..|done|] == done && a[|done|] == x
  {
    assert a[..|done|] == a[..|done| + 1][..|done|];
  }

  /** talk: one send for a str or a tuple, one per element for a list, TypeError otherwise. */
  function Talk(st: SocketState, m: Message): (o: Outcome<TalkReply>)
    ensures m.OtherMessage? ==> o == Outcome(Err(UnsupportedMessage), st)
    ensures m.ListMessage? && o.result.Ok? ==> o.result.value.Batch? && |o.result.value.replies| == |m.items|
    ensures m.StrMessage? ==> o.state == Send(st, Text(m.s)).state
    ensures m.StrMessage? ==> (o.result ==
      if Send(st, Text(m.s)).result.Ok? then Ok(Single(Send(st, Text(m.s)).result.value)) else Err(Send(st, Text(m.s)).result.error))
    ensures m.TupleMessage? ==> o.state == Send(st, Words(m.ws)).state
    ensures m.TupleMessage? ==> (o.result ==
      if Send(st, Words(m.ws)).result.Ok? then Ok(Single(Send(st, Words(m.ws)).result.value)) else Err(Send(st, Words(m.ws)).result.error))
    ensures m.ListMessage? ==> o.state == SendEach(st, m.items, []).state
    ensures m.ListMessage? ==> (o.result ==
      if SendEach(st, m.items, []).result.Ok? then Ok(Batch(SendEach(st, m.items, []).result.value)) else Err(SendEach(st, m.items, []).result.error))
    ensures o.state.closed == st.closed && o.state.timeout == st.timeout
    ensures !m.ListMessage? && o.result.Ok? ==> !st.closed
  {
    match m
    case StrMessage(s) =>
      var o := Send(st, Text(s));
      Outcome(if o.result.Ok? then Ok(Single(o.result.value)) else Err(o.result.error), o.state)
    case TupleMessage(ws) =>
      var o := Send(st, Words(ws));
      Outcome(if o.result.Ok? then Ok(Single(o.result.value)) else Err(o.result.error), o.state)
    case ListMessage(items) =>
      var o := SendEach(st, items, []);
      Outcome(if o.result.Ok? then Ok(Batch(o.result.value)) else Err(o.result.error), o.state)
    case OtherMessage =>
      Outcome(Err(UnsupportedMessage), st)
  }

  // ---------------------------------------------------------------------------
  // is_alive

  /** The probe failures is_alive catches that the socket model cannot produce: socket.timeout and BrokenPipeError. */
  datatype Fault = ProbeTimeout | BrokenPipe

  /** The command is_alive sends to see whether the router answers. */
  const Probe: string := "/system/identity/print"

  /**
   * is_alive with the Api's configured timeout: False without closing when
   * settimeout fails on a closed socket; False after closing when the probe
   * times out, hits a broken pipe or gets an empty reply sentence (IndexError),
   * leaving the 2-second probe timeout in place; True after restoring the
   * configured timeout when the probe succeeds; any other error propagates.
   */
  function IsAlive(st: SocketState, timeout: Timeout, fault: Option<Fault>): (o: Outcome<bool>)
    ensures st.closed ==> o == Outcome(Ok(false), st)
    ensures o.result == Ok(true) ==> !o.state.closed && o.state.timeout == timeout
    ensures o.result == Ok(false) && !st.closed ==> o.state.closed && o.state.timeout == Seconds(2.0)
    ensures o.result.Err? ==> !st.closed && fault.None? && o.result.error != IndexError
    ensures !st.closed && fault.Some? ==> o == Outcome(Ok(false), st.(timeout := Seconds(2.0), closed := true))
    ensures !st.closed && fault.None? ==> o == Probed(st.(timeout := Seconds(2.0)), timeout)
  {
    if st.closed then Outcome(Ok(false), st)
    else
      var probing := st.(timeout := Seconds(2.0));
      if fault.Some? then Outcome(Ok(false), probing.(closed := true))
      else Probed(probing, timeout)
  }

  /**
   * The second half of is_alive, once the 2-second timeout is set and the probe
   * raises neither socket.timeout nor BrokenPipeError: talk the probe; on
   * IndexError close and answer False; on success restore `timeout` and answer
   * True; let any other error through.
   */
  function Probed(st: SocketState, timeout: Timeout): (o: Outcome<bool>)
    ensures o.result == Ok(true) ==> o.state.closed == st.closed && o.state.timeout == timeout
    ensures o.result == Ok(false) ==> o.state.closed && o.state.timeout == st.timeout
    ensures o.result.Err? ==> o.result.error != IndexError && o.state.closed == st.closed
  {
    Verdict(Talk(st, StrMessage(Probe)), timeout)
  }

  /** How is_alive judges the outcome of the probe. */
  function Verdict(probe: Outcome<TalkReply>, timeout: Timeout): (o: Outcome<bool>)
    ensures o.result == Ok(true) ==> probe.result.Ok? && o.state == probe.state.(timeout := timeout)
    ensures o.result == Ok(false) ==> probe.result == Err(IndexError) && o.state == probe.state.(closed := true)
    ensures o.result.Err? ==> probe.result.Err? && o == Outcome(Err(probe.result.error), probe.state) && o.result.error != IndexError
  {
    match probe.result
    case Ok(_) => Outcome(Ok(true), probe.state.(timeout := timeout))
    case Err(e) =>
      if e == IndexError then Outcome(Ok(false), probe.state.(closed := true))
      else Outcome(Err(e), probe.state)
  }

  /**
   * is_alive end to end: on an open socket whose peer answers the probe with a
   * framed paragraph that is not a !trap and whose attribute words all carry
   * '=', is_alive returns True with the configured timeout back in place.
   */
  lemma AliveWhenAnswered(st: SocketState, timeout: Timeout, p: Paragraph, rest: seq<Byte>)
    requires !st.closed && FramedParagraph(p) && st.input == ParagraphBytes(p) + rest
    requires !Contains(p[0][0], "!trap") && Records(p[..|p| - 1]).Ok?
    ensures IsAlive(st, timeout, None) ==
      Outcome(Ok(true), st.(output := st.output + SentenceBytes([Probe]), input := rest, timeout := timeout))
  {
    ProbeWords();
    SendReply(st.(timeout := Seconds(2.0)), Text(Probe), p, rest);
  }

  /** The probe is a single word. */
  lemma ProbeWords()
    ensures Split(Probe) == [Probe]
  {
    assert NoSpace(Probe);
    SingleWord(Probe);
  }

  lemma SingleWord(w: string)
    requires w != "" && NoSpace(w)
    ensures Split(w) == [w]
  {
    SplitJoinSpaced([w]);
  }
}
