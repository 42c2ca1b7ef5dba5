# RouterOS API clients, modelled in Dafny

This project models the client side of the MikroTik RouterOS API. The
protocol is a vendor protocol over TCP. A request is a *sentence*: a list of
*words*, each sent as a length prefix followed by its UTF-8 bytes, and ended
by a zero-length word. The router answers with a *paragraph*: sentences until
one whose first word is `!done`. A `!trap` sentence reports an error.

The repository holds two clients, and each has its own model:

- `ros_api/api.py`, the current package. It has a variable-width length
  prefix (1 to 4 bytes, or `0xF0` followed by 4 bytes). Its login checks
  the reply to a legacy MD5 challenge as well. `send` raises on `!trap` and
  splits attribute words on the first `=`. `is_alive` probes the router with
  a 2-second timeout.
- `routeros_api.py`, the older standalone client. It has a single length
  byte and a strict UTF-8 decode with a fallback. A `!trap` reply becomes an
  error *string*. Its login returns the legacy reply unchecked. `send` needs
  exactly one `=` in each attribute word.

The socket is a class (`Sockets.Socket`). Its fields are the bytes the peer
has sent and the client has not read yet, the bytes the client has written,
whether it is closed, and its timeout. `recv(k)` hands over
`min(k, remaining)` bytes and returns `b''` only when the stream is used up.
Each client's `Api` is a class whose methods read and write that socket step
by step, with loops where the source loops. Each method is proved to return,
and to leave the socket, exactly what a function of the socket state gives:

- `RosWire.Exchange`, `RosReply.Login`, `RosReply.Send`, `RosReply.Talk`,
  `RosReply.IsAlive` for `ros_api/api.py`;
- `RouterosWire.Exchange`, `RouterosReply.Login`, `RouterosReply.Send`,
  `RouterosReply.Talk` for `routeros_api.py`.

Lemmas about those functions state what the protocol promises:

- the length codec round trip;
- the exact bytes of a sentence;
- the shape of a paragraph;
- reading back a framed paragraph;
- the outcome of login for each kind of first reply;
- the dicts built from a reply;
- the liveness verdict.

Modules:

| module | file | what it holds |
|---|---|---|
| Wrappers | wrappers.dfy | Option, Result, mapping a Result-valued function over a sequence |
| Seqs | seqs.dfy | two facts about concatenation |
| Bytes | bytes.dfy | bytes, big-endian values, `int.to_bytes` |
| Defaults | defaults.dfy | the default ports and the port choice |
| Utf8 | utf8.dfy | UTF-8 encoding, strict decoding, decoding with backslashreplace |
| Hex | hex.dfy | `binascii.hexlify` and `unhexlify` |
| Text | text.dfy | `str.split()`, `str.split(sep)`, `str.split(sep, 1)`, substring tests |
| Dicts | dicts.dfy | a Python dict as an insertion-ordered list of pairs |
| LoginWords | login_words.dfy | the login sentence and the legacy challenge response |
| Sockets | sockets.dfy | the socket class and its state as a value |
| LengthCodec | length_codec.dfy | `send_length` / `receive_length` as functions |
| RosWire, RosReply, RosApi | ros_wire.dfy, ros_reply.dfy, ros_api.dfy | `ros_api/api.py` |
| RouterosWire, RouterosReply, RouterosApi | routeros_wire.dfy, routeros_reply.dfy, routeros_api.dfy | `routeros_api.py` |

Where the code and the written description of the protocol disagree, the
model follows the code:

- Both clients' outgoing length prefix counts the characters of a word, not
  its UTF-8 bytes. A client's own frame of a non-ASCII word therefore does not
  read back: `RosWire.NonAsciiWordMisread` and
  `RouterosWire.NonAsciiWordMisread` show this for `"é"`.
- The readers differ. `ros_api/api.py` reads as many bytes as the prefix
  announces and then decodes them. So every non-empty word the router frames
  by its UTF-8 byte length is read back, whatever its characters
  (`RosWire.ReadWordsFramed`). `routeros_api.py` counts decoded characters
  against the length byte, so its round trips hold for ASCII words.
- There is no Closed or NotAuthenticated state. Writing to a closed socket
  raises OSError, and a command may be sent before login.
- `is_alive` restores the timeout only after a successful probe. After a
  timeout, IndexError or BrokenPipeError it closes the socket and leaves the
  2-second timeout in place.
- In `routeros_api.py`:
  - a `!trap` reply is returned as an error string, not raised;
  - the legacy login reply is returned without being checked;
  - any other login reply returns None instead of raising;
  - an attribute word with a second `=` raises ValueError;
  - a word that is not valid UTF-8 is decoded with its first byte read as a
    new length, not with replacement characters.

## Model

| member | source | states |
|---|---|---|
| Wrappers.MapResultsEach | ros_api/api.py:269-272 | mapping a fallible step over a list succeeds exactly when every element succeeds, with one result per element in order |
| Wrappers.MapResultsStop | ros_api/api.py:269-272 | the first failing element decides the error of the whole mapping |
| Defaults.SelectPort | ros_api/api.py:60-66 | a non-zero (truthy) port is kept; otherwise 8729 exactly when SSL is used and 8728 exactly when it is not |
| Bytes.BigEndianToBytes | ros_api/api.py:164 | `int.from_bytes` inverts `to_bytes(k, 'big')` for every value below 256^k |
| Bytes.ToBytesHead | ros_api/api.py:164 | the first of k big-endian bytes is the value divided by 256^(k-1) |
| LengthCodec.EncodeLength | ros_api/api.py:146-164 | a prefix exists exactly for lengths below 2^32, WordTooLong otherwise |
| LengthCodec.EncodeLengthForms | ros_api/api.py:146-164 | the five prefix forms: one byte below 0x80; n+0x8000 in 2 bytes; n+0xC00000 in 3; n+0xE0000000 in 4; 0xF0 then n in 4 bytes |
| LengthCodec.ReceiveLength | ros_api/api.py:171-197 | reads 1 to 5 bytes; a non-zero length consumes input; an empty stream reads as length 0; a negative length only at the end of the stream |
| LengthCodec.ShortPrefix | ros_api/api.py:181-192 | a multi-byte prefix cut short by the end of the stream decodes below its form's offset, so the length is negative |
| LengthCodec.LengthRoundTrip | ros_api/api.py:146-197 | for every n < 2^32, receive_length applied to send_length's bytes returns n and leaves what follows unread |
| Utf8.Encode | ros_api/api.py:224 | an ASCII string encodes to one byte per character with the same code |
| Utf8.DecodeEncode | routeros_api.py:103 | strict decoding inverts `str.encode('utf-8')` for every string |
| Utf8.EncodeCharDecodes | routeros_api.py:103 | each character's encoding announces its own length and decodes back to that character |
| Utf8.DecodeReplaceAgrees | ros_api/api.py:210 | on valid UTF-8, decoding with backslashreplace gives the strict decoding |
| Hex.Hexlify | ros_api/api.py:119 | two lower-case hex digits per byte |
| Hex.Unhexlify | ros_api/api.py:117 | a result exists exactly for an even number of hex digits of either case, so an odd length or any non-hex character is rejected; a result has half the string's length |
| Hex.UnhexlifyDigits | ros_api/api.py:117 | byte i of the result is the value of the digit pair at 2i and 2i+1, upper- and lower-case alike |
| Hex.UnhexlifyHexlify | ros_api/api.py:117-119 | unhexlify inverts hexlify |
| Text.Split | ros_api/api.py:257 | `str.split()`: non-empty words without whitespace whose concatenation is the string without its whitespace |
| Text.SplitJoinSpaced | ros_api/api.py:256-257 | splitting words joined by spaces gives the words back |
| Text.SplitSpaced | ros_api/api.py:256-257 | words laid out between non-empty runs of any whitespace, with optional whitespace at either end, split back to exactly those words |
| Text.SplitLayout | ros_api/api.py:256-257 | every string is its split words laid out that way, so with Text.SplitSpaced the words are exactly the maximal runs of non-whitespace |
| Text.SplitOn | routeros_api.py:168 | `str.split('=')`: at least one part, no part holds the separator, and joining the parts gives the string back |
| Text.SplitOnJoin | routeros_api.py:168 | splitting parts joined by the separator gives the parts back |
| Text.SplitOnCount | routeros_api.py:168 | the number of parts is one more than the number of separators |
| Text.SplitOnce | ros_api/api.py:271 | `str.split('=', 1)`: one part when there is no separator, else the text before the first one and the rest |
| Text.ContainsAt | ros_api/api.py:261 | the substring test `in` holds exactly when the substring occurs at some index |
| Dicts.PutLookup | ros_api/api.py:272 | after `d[k] = v`, k maps to v and every other key is unchanged |
| Dicts.PutKeys | ros_api/api.py:272 | `d[k] = v` keeps the key order and appends only a new key |
| Dicts.PutUnique | ros_api/api.py:272 | `d[k] = v` keeps the keys distinct |
| LoginWords.ChallengeResponse | ros_api/api.py:116-119 | None exactly when unhexlify rejects the challenge; otherwise `/login`, `=name=`+user and exactly `=response=00` followed by hexlify's lower-case digits of the MD5 of NUL, the password and the challenge |
| Sockets.Socket.SendAll | ros_api/api.py:224 | sendall appends the data on an open socket and fails without writing on a closed one |
| Sockets.Socket.Recv | ros_api/api.py:206 | recv(k) removes and returns the next min(k, remaining) bytes |
| Sockets.Socket.SetTimeout | ros_api/api.py:280 | settimeout sets the timeout on an open socket and fails on a closed one |
| Sockets.Socket.Close | ros_api/api.py:307-308 | the socket is closed |
| RosWire.WordFrame | ros_api/api.py:222-224 | a word has a frame exactly when its length is below 2^32 |
| RosWire.FrameWords | ros_api/api.py:222-225 | the word loop stops early exactly when some word is too long |
| RosWire.FrameWordsAppend | ros_api/api.py:222-225 | framing distributes over concatenation once the first part is framed in full |
| RosWire.Transmit | ros_api/api.py:222-226 | the sending part succeeds exactly on an open socket with every word framable, and then writes every word's frame and one zero byte; otherwise OSError or WordTooLong |
| RosWire.ReadWords | ros_api/api.py:199-215 | read_sentence keeps the words read so far as a prefix, consumes input for each word, and raises only wire errors |
| RosWire.WordsAfter | ros_api/api.py:201-213 | read_sentence after a received length, with the same guarantees |
| RosWire.ReadSentences | ros_api/api.py:233-238 | collecting sentences consumes input and raises only wire errors |
| RosWire.ReadSentencesShape | ros_api/api.py:233-238 | the collected paragraph is non-empty, its last sentence starts with `!done` and no earlier one does; a `!trap` sentence does not stop it |
| RosWire.ParagraphAfterStep | ros_api/api.py:235-237 | one more sentence that does not start with `!done` keeps that shape |
| RosWire.Exchange | ros_api/api.py:222-238 | communicate writes exactly the framed sentence on an open socket when every word fits; a reply is always a well-formed paragraph read from an open socket |
| RosWire.WireParagraphFramed | ros_api/api.py:233-238 | a paragraph of non-empty words, ending at its only `!done`, is framed sentence by sentence |
| RosWire.SentenceBytesCons | ros_api/api.py:222-226 | a sentence's bytes are its first word's frame followed by the rest's |
| RosWire.ReadWordsStep | ros_api/api.py:203-213 | read_sentence reads back one non-empty word framed by its UTF-8 byte length, whatever its characters, and goes on right after it |
| RosWire.ReadWordsFramed | ros_api/api.py:199-215 | round trip: any sentence of non-empty words, framed as the router frames it, is read back word for word, and reading stops after its zero byte |
| RosWire.ReadSentencesStep | ros_api/api.py:235-237 | the loop reads one router-framed sentence and stops exactly when it starts with `!done` |
| RosWire.ReadWordsEnd | ros_api/api.py:203 | the zero byte ends read_sentence and leaves what follows unread |
| RosWire.ReadSentencesNext | ros_api/api.py:235-237 | reading a router-framed paragraph of several sentences moves its first sentence to those already collected |
| RosWire.ReadSentencesFramed | ros_api/api.py:233-238 | round trip: any router-framed paragraph of non-empty words is collected in full, and nothing after it is read |
| RosWire.ExchangeFramed | ros_api/api.py:222-238 | round trip of communicate: the sentence goes out in the client's framing, and exactly the paragraph the router framed comes back, whatever its characters |
| RosWire.AsciiFrameAgrees | ros_api/api.py:146-164 | for a non-empty ASCII word the client's frame is the router's, since characters and bytes agree |
| RosWire.AsciiSentenceAgrees | ros_api/api.py:222-226 | a sentence of non-empty ASCII words leaves the client exactly as the router frames it, so the client's own frames read back |
| RosWire.NonAsciiWordMisread | ros_api/api.py:147 | `"é"` is framed as 01 C3 A9 00 (prefix 1, two payload bytes), and reading it back raises RuntimeError |
| RosReply.CheckReply | ros_api/api.py:124-135 | `['!done']` returns the reply, a two-word `!trap` sentence raises LoginError on it, an unrecognised sentence raises LoginError, a rejected challenge raises BadChallenge, each with the socket unchanged; conversely success only with a first sentence `['!done']`, and each LoginError only on a reply of its kind |
| RosReply.Login | ros_api/api.py:137-139 | on an open socket the name and password sentence is written first; the outcomes are check_reply's: success only with a first sentence `['!done']`, each LoginError only on a reply of its kind |
| RosReply.Recheck | ros_api/api.py:121-122 | after the response is exchanged, success only with a first sentence `['!done']` and each LoginError only on a reply of its kind |
| RosReply.ChallengeRechecked | ros_api/api.py:113-122 | on a router-framed answer p, a `=ret=` challenge sends the response and the outcome is check_reply's on p |
| RosReply.LoginAccepted | ros_api/api.py:124-128 | end to end: a router answering `['!done']` makes login return that reply, with the login sentence written and the reply consumed |
| RosReply.LoginRefused | ros_api/api.py:129-131 | end to end: a two-word `!trap` first sentence raises LoginError on that reply |
| RosReply.LoginUnrecognised | ros_api/api.py:134-135 | end to end: any other first sentence raises LoginError for an unexpected reply |
| RosReply.LoginChallenged | ros_api/api.py:113-133 | end to end: a `=ret=` challenge sends the login sentence and then the response sentence, and the router's second paragraph goes through check_reply |
| RosReply.ChallengeAnswered | ros_api/api.py:113-122 | a `=ret=` challenge makes the client write the framed response sentence next |
| RosReply.Attribute | ros_api/api.py:271 | a word splits exactly when its text after the first character holds `=`; key and value rejoin to that text |
| RosReply.Fill | ros_api/api.py:271-272 | filling a dict fails only with the missing-`=` error |
| RosReply.FillFails | ros_api/api.py:271-272 | filling fails exactly when some attribute word has no `=` |
| RosReply.FillLookup | ros_api/api.py:271-272 | each key holds the value of its last word: later duplicates overwrite earlier ones |
| RosReply.FillUnique | ros_api/api.py:271-272 | the dict's keys stay distinct |
| RosReply.Send | ros_api/api.py:254-273 | send only succeeds on an open socket, and only appends output |
| RosReply.SendWords | ros_api/api.py:258-273 | the same, for a command given as words |
| RosReply.SendTextAsWords | ros_api/api.py:256-257 | a str command behaves as the tuple of its whitespace-separated words |
| RosReply.SendReply | ros_api/api.py:254-273 | end to end on any router-framed reply: the command goes out framed and the reply is consumed; a `!trap` first word raises the trap error with the command and the reply; otherwise one dict per sentence before `!done`, or the missing-`=` error |
| RosReply.SendEach | ros_api/api.py:247-250 | talk's list loop returns one result per element, in order, each the send of that element |
| RosReply.Talk | ros_api/api.py:241-252 | a str or a tuple gives exactly one send's result and socket; a list gives exactly the loop's socket and its results, one reply per element, or its first error; a str or tuple succeeds only on an open socket; anything else raises TypeError with the socket unchanged |
| RosReply.IsAlive | ros_api/api.py:275-296 | closed socket: False without change; a timeout or broken pipe on an open socket: False, closed, at the 2-second timeout; otherwise the probe's verdict at the 2-second timeout; True only with the configured timeout restored; errors other than IndexError propagate |
| RosReply.Probed | ros_api/api.py:286-296 | after the probe: True restores the timeout, False closes the socket |
| RosReply.Verdict | ros_api/api.py:289-296 | True only after a successful probe; False only after IndexError, and then closed; any other error propagates unchanged |
| RosReply.AliveWhenAnswered | ros_api/api.py:275-296 | end to end: a router answering the probe with any framed paragraph that is neither a trap nor malformed makes is_alive return True, with the probe written, the reply consumed and the configured timeout back |
| RosReply.SingleWord | ros_api/api.py:257 | a word without whitespace splits to itself |
| RosApi.Api.constructor | ros_api/api.py:48-66 | the settings are kept, the port is chosen by SelectPort, and a fresh open socket has the configured timeout |
| RosApi.Api.OpenSocket | ros_api/api.py:81-87 | a fresh open socket with the configured timeout |
| RosApi.Api.CreateConnection | ros_api/api.py:298-305 | a fresh socket, then the outcome of RosReply.Login on it |
| RosApi.Api.Close | ros_api/api.py:307-308 | only the closed flag changes |
| RosApi.Api.SendLength | ros_api/api.py:146-164 | writes exactly EncodeLength's bytes; WordTooLong with nothing written; OSError on a closed socket |
| RosApi.Api.ReceiveLength | ros_api/api.py:171-197 | returns, and consumes, exactly what LengthCodec.ReceiveLength gives |
| RosApi.Api.ReadSentence | ros_api/api.py:199-215 | returns and consumes exactly what RosWire.ReadSentence gives |
| RosApi.Api.ReceiveWord | ros_api/api.py:205-209 | accumulates exactly n bytes, or raises RuntimeError when the stream ends first |
| RosApi.Api.Communicate | ros_api/api.py:142-238 | returns and leaves the socket exactly as RosWire.Exchange |
| RosApi.Api.SendSentence | ros_api/api.py:222-226 | exactly RosWire.Transmit |
| RosApi.Api.SendWords | ros_api/api.py:222-225 | writes every word's frame in order, or stops as RosWire.Transmit does |
| RosApi.Api.SendWord | ros_api/api.py:223-224 | writes one word's frame, or fails without writing |
| RosApi.Api.ReadParagraph | ros_api/api.py:233-238 | exactly RosWire.ReadParagraph |
| RosApi.Api.Login | ros_api/api.py:137-139 | exactly RosReply.Login |
| RosApi.Api.CheckReply | ros_api/api.py:124-135 | exactly RosReply.CheckReply |
| RosApi.Api.ReplyHasError | ros_api/api.py:106-111 | true exactly for a two-word first sentence starting with `!trap` |
| RosApi.Api.ProcessOldLogin | ros_api/api.py:113-122 | exactly RosReply.CheckReply on a challenge |
| RosApi.Api.Talk | ros_api/api.py:241-252 | exactly RosReply.Talk |
| RosApi.Api.Send | ros_api/api.py:254-273 | exactly RosReply.Send |
| RosApi.Api.NiceReply | ros_api/api.py:268-273 | one dict per sentence but the last, as RosReply.RecordsBeforeDone |
| RosApi.Api.IsAlive | ros_api/api.py:275-296 | exactly RosReply.IsAlive |
| RosApi.Api.Probe | ros_api/api.py:286-296 | exactly RosReply.Probed |
| RosApi.Api.Judge | ros_api/api.py:289-296 | exactly RosReply.Verdict |
| RosApi.TransmitStops | ros_api/api.py:222-224 | the word loop stops at the first word too long (WordTooLong) or at a closed socket (OSError), with the earlier words written |
| RosApi.TransmitFirst | ros_api/api.py:222-224 | a closed socket, or a first word too long, fails the sending part before anything is written |
| RosApi.TransmitSent | ros_api/api.py:222-226 | once every word is framed on an open socket, the zero byte completes the sentence |
| RosApi.FramingStops | ros_api/api.py:222-224 | the first word too long ends framing with the bytes of the words before it |
| RosApi.FramingGoesOn | ros_api/api.py:222-224 | a framable word extends the bytes written by its frame |
| RosApi.RecordsStop | ros_api/api.py:269-272 | a sentence that does not unpack makes the whole of send fail |
| RosApi.RecordsNext | ros_api/api.py:269-272 | each tabulated sentence appends its dict |
| RouterosWire.WordFrame | routeros_api.py:125-128 | a word has a frame exactly when its length is below 256; the frame is the length byte and the UTF-8 bytes |
| RouterosWire.FrameWords | routeros_api.py:125-128 | the word loop stops early exactly when some word is too long |
| RouterosWire.FrameWordsAppend | routeros_api.py:125-128 | framing distributes over concatenation once the first part is framed in full |
| RouterosWire.Transmit | routeros_api.py:125-131 | succeeds exactly on an open socket with every word under 256 characters, and then writes each word's frame and one zero byte; otherwise OverflowError or OSError |
| RouterosWire.LengthByte | routeros_api.py:90 | the length byte is `int.from_bytes` of what recv(1) returned, 0 for `b''` |
| RouterosWire.ReceiveWord | routeros_api.py:94-107 | the inner loop consumes input whenever more characters are needed, and fails only with RuntimeError or UnicodeDecodeError |
| RouterosWire.TrapText | routeros_api.py:110-111 | IndexError exactly when the word has fewer than three `=`-separated fields; otherwise the text starts with the error prefix |
| RouterosWire.ReadWords | routeros_api.py:88-118 | read_sentence consumes input for each word, an error string starts with the error prefix, and only wire errors are raised |
| RouterosWire.WordsAfter | routeros_api.py:92-115 | read_sentence after a length byte, with the same guarantees |
| RouterosWire.Collect | routeros_api.py:139-145 | the loop consumes no more than the input and raises only wire errors |
| RouterosWire.CollectShape | routeros_api.py:139-145 | a returned paragraph ends at its only `!done` sentence and has no word `Error`; an error string starts with the prefix; a flagged sentence holds `Error` |
| RouterosWire.ParagraphAfterStep | routeros_api.py:140-144 | one more sentence that does not start with `!done` keeps that shape |
| RouterosWire.ErrorTextHasError | routeros_api.py:142 | every error string passes the `'Error' in` test |
| RouterosWire.Exchange | routeros_api.py:86-145 | communicate writes the framed sentence; `'Error' in reply` holds exactly when the reply is not a paragraph; a paragraph is well formed unless the outgoing sentence starts with `!done` |
| RouterosWire.CollectReply | routeros_api.py:139-145 | the reply facts of Exchange for the receiving loop alone |
| RouterosWire.ReceiveAscii | routeros_api.py:94-107 | the bytes of a short ASCII word decode strictly to the word |
| RouterosWire.ReadWordsStep | routeros_api.py:92-115 | one framed word is read; after `!trap` it yields the error text at once |
| RouterosWire.SentenceBytesCons | routeros_api.py:125-131 | a sentence's bytes are its first word's frame followed by the rest's |
| RouterosWire.WireTail | routeros_api.py:125-131 | the rest of a readable sentence is readable |
| RouterosWire.ReadWordsEnd | routeros_api.py:92 | the zero byte ends read_sentence |
| RouterosWire.ReadWordsFramed | routeros_api.py:88-118 | round trip: a framed sentence of ASCII words without `!trap` is read back word for word, and reading stops after its zero byte |
| RouterosWire.ReadTrap | routeros_api.py:110-113 | a `!trap` sentence yields the error text of the word after `!trap` and leaves the rest unread |
| RouterosWire.TrapMessage | routeros_api.py:111 | for the word `=message=`+m the error text is the prefix followed by m |
| RouterosWire.CollectStep | routeros_api.py:140-144 | the loop reads the first sentence of a framed paragraph and moves on to the rest |
| RouterosWire.CollectFramed | routeros_api.py:139-145 | round trip: a framed paragraph is collected in full and nothing after it is read |
| RouterosWire.ExchangeFramed | routeros_api.py:86-145 | round trip of communicate: the sentence goes out framed and exactly the peer's paragraph comes back |
| RouterosWire.ExchangeDoneFirst | routeros_api.py:140 | an outgoing sentence starting with `!done` is sent, and an empty paragraph returned with nothing read |
| RouterosWire.ExchangeEmpty | routeros_api.py:131-140 | an empty sentence sends the zero byte, then raises IndexError |
| RouterosWire.ExchangeTrap | routeros_api.py:110-143 | a `!trap` reply returns the error text and leaves the rest of the trap sentence unread |
| RouterosWire.NonAsciiWordMisread | routeros_api.py:99-107 | `"é"` is framed as 01 C3 A9 00, and read_sentence raises RuntimeError on it |
| RouterosReply.Login | routeros_api.py:69-83 | only appends output; a LoginError message is `Login ` followed by the error string; None only after sending exactly the name and password sentence |
| RouterosReply.LoginReply | routeros_api.py:72-83 | the tests after communicate; None leaves the socket as it was |
| RouterosReply.LegacyLogin | routeros_api.py:77-83 | the legacy branch returns a reply or raises only a bad-challenge or wire error |
| RouterosReply.LoginMessage | routeros_api.py:76 | `Login ` + an error string starts with `Login ` and the prefix |
| RouterosReply.LoginAccepted | routeros_api.py:72-74 | a router answering `['!done']` makes login return that reply |
| RouterosReply.LoginTrapped | routeros_api.py:75-76 | a router trapping the login with `=message=`+m raises LoginError with `Login `, the prefix and m |
| RouterosReply.LoginLegacy | routeros_api.py:77-83 | a `=ret=` challenge is answered with the response sentence, and the second paragraph is returned as it is |
| RouterosReply.LoginOther | routeros_api.py:69-83 | any other first sentence returns None and sends nothing more |
| RouterosReply.Attribute | routeros_api.py:168 | an unpacked key and value hold no `=` and rejoin to the word after its first character |
| RouterosReply.AttributeUnpacks | routeros_api.py:168 | a word unpacks exactly when its text after the first character holds exactly one `=` |
| RouterosReply.AttributeOfPair | routeros_api.py:168 | `=k=v` unpacks to k and v when neither holds `=` |
| RouterosReply.EqualsInValue | routeros_api.py:168 | a value holding `=` makes the word fail to unpack |
| RouterosReply.Fill | routeros_api.py:168-169 | filling a dict fails only with ValueError |
| RouterosReply.FillFails | routeros_api.py:168-169 | filling fails exactly when some attribute word does not unpack |
| RouterosReply.FillLookup | routeros_api.py:168-169 | each key holds the value of its last word |
| RouterosReply.RecordsEach | routeros_api.py:165-169 | the dicts are built exactly when every attribute word unpacks, one per sentence in order; otherwise ValueError |
| RouterosReply.RecordsError | routeros_api.py:168 | building the dicts fails only with ValueError |
| RouterosReply.Send | routeros_api.py:158-170 | a reply returned as it is passes the `'Error' in` test; the only non-wire error is ValueError |
| RouterosReply.Tabulate | routeros_api.py:160-170 | a reply with `Error` as it is, else the dicts, or ValueError |
| RouterosReply.SendTable | routeros_api.py:158-170 | end to end: the command's words go out framed, and the result is one dict per sentence before `!done`, or ValueError |
| RouterosReply.SendDoneFirst | routeros_api.py:139-170 | a command starting with `!done` returns no dicts and reads nothing |
| RouterosReply.SendBlank | routeros_api.py:140-159 | a blank command sends the zero byte, then raises IndexError |
| RouterosReply.SendEach | routeros_api.py:153-156 | one answer per element in order, each the send of that element; an element that is not a str, and is not bytes-like, raises AttributeError |
| RouterosReply.Talk | routeros_api.py:148-156 | a str gives exactly one send's answer or error and its socket; a list gives exactly the loop's socket and its answers, one per element, or its first error; anything else returns None with the socket unchanged |
| RouterosApi.Api.constructor | routeros_api.py:28-47 | the settings are kept, the port is chosen by SelectPort, and a fresh blocking socket is open |
| RouterosApi.Api.Close | routeros_api.py:172-173 | only the closed flag changes |
| RouterosApi.Api.Login | routeros_api.py:69-83 | exactly RouterosReply.Login |
| RouterosApi.Api.Communicate | routeros_api.py:86-145 | exactly RouterosWire.Exchange |
| RouterosApi.Api.SendSentence | routeros_api.py:125-131 | exactly RouterosWire.Transmit |
| RouterosApi.Api.SendWords | routeros_api.py:125-128 | writes every word's frame in order, or stops as RouterosWire.Transmit does |
| RouterosApi.Api.SendWord | routeros_api.py:126-128 | writes one word's frame, or raises OverflowError or OSError without writing |
| RouterosApi.Api.ReadReply | routeros_api.py:139-145 | exactly RouterosWire.Collect from the outgoing sentence |
| RouterosApi.Api.ReadSentence | routeros_api.py:88-118 | exactly RouterosWire.ReadSentence |
| RouterosApi.Api.ReceiveWord | routeros_api.py:93-107 | exactly RouterosWire.ReceiveWord |
| RouterosApi.Api.Talk | routeros_api.py:148-156 | exactly RouterosReply.Talk |
| RouterosApi.Api.Send | routeros_api.py:158-170 | exactly RouterosReply.Send |
| RouterosApi.Api.NiceReply | routeros_api.py:165-170 | one dict per sentence but the last, as RouterosReply.RecordsBeforeDone |
| RouterosApi.TransmitStops | routeros_api.py:125-128 | the word loop stops at the first word too long (OverflowError) or at a closed socket (OSError), with the earlier words written |
| RouterosApi.TransmitFirst | routeros_api.py:125-128 | a closed socket, or a first word of 256 characters or more, fails the sending part before anything is written |
| RouterosApi.TransmitSent | routeros_api.py:125-131 | once every word is framed on an open socket, the zero byte completes the sentence |
| RouterosApi.FramingStops | routeros_api.py:125-128 | the first word too long ends framing with the bytes of the words before it |
| RouterosApi.FramingGoesOn | routeros_api.py:125-128 | a framable word extends the bytes written by its frame |
| RouterosApi.RecordsStop | routeros_api.py:166-169 | a sentence that does not unpack makes the whole of send fail |
| RouterosApi.RecordsNext | routeros_api.py:166-169 | each tabulated sentence appends its dict |

## Left out

- Socket setup: `getaddrinfo`, `connect`, and the SSL wrapping. The model starts from a connected socket whose peer's bytes are a parameter.
- The connect-failure handling: CreateSocketError in `ros_api/api.py`, and the `print` and `exit(0)` in `routeros_api.py`.
- Logging: `self.log` and the `verbose` prints have no effect on the protocol and are not modelled.
- MD5: it is a function parameter, not an implementation.
- Short reads: `recv(k)` returns fewer than k bytes only at the end of the stream. A partial read inside `receive_length` is therefore not modelled.
- Timeouts and broken pipes: these cannot be produced by a modelled peer. `is_alive` takes them as an optional fault parameter.
- The constructors' chaining: in both clients, `__init__` then calls `open_socket` and `login`, and `ros_api/api.py` also calls `is_alive`. The constructors stop after opening the socket, and `Login` and `IsAlive` are separate calls. An exception from login inside `__init__` is therefore not modelled as a failed construction.
- RosApi.Api.constructor, RouterosApi.Api.constructor: the `context` and `verbose` arguments are not kept, since they only affect SSL and logging.
- RosReply.SendEach, RosReply.Talk: a list element is a str or a sequence of words. An element of any other type, which makes `communicate` raise TypeError while iterating or measuring it, cannot be expressed.
- RouterosApi.Api.Talk: a tuple, or any other value that is neither a str nor a list, is one `OtherMessage` case. A list element without a `split` method raises AttributeError with nothing written. A `bytes` or `bytearray` element cannot be expressed: `split()` accepts it, and communicate then writes its length byte and raises AttributeError at `encode` (or writes the zero byte and raises IndexError for `b''`).
- RouterosWire.ReadWordsFramed, RouterosWire.CollectFramed, RouterosWire.ExchangeFramed: proved for ASCII words only, because the reader of `routeros_api.py` counts decoded characters against the length byte. The counterexample lemmas show a non-ASCII word failing.
- Lone surrogates: a Python str may hold them, and `word.encode('utf-8')` then raises UnicodeEncodeError (`ros_api/api.py:224`, `routeros_api.py:128`). A Dafny `char` is a Unicode scalar value and cannot hold one, so that error is not modelled.
- RosReply.IsAlive: on a timeout or broken pipe the socket keeps the input and output it had before the probe. In the source the probe sentence, or part of it, has already been written, and part of the reply may have been read, before the fault.
- `int` is unbounded in the model, as in Python. Widths appear only where the source has them: `to_bytes(1)` overflowing at 256, and the 2^32 limit of `send_length`.
