/**
 * A connected stream socket as the clients see it: the bytes the peer has sent
 * and the client has not read yet, the bytes the client has sent, whether it
 * has been closed, and its timeout. The peer is modelled as having sent all its
 * bytes already, so recv(k) hands over min(k, remaining) bytes and returns b''
 * only once the stream is exhausted.
 */
module Sockets {
  import opened Bytes

  /** socket.settimeout's argument: None (blocking) or a number of seconds. */
  datatype Timeout = Blocking | Seconds(seconds: real)

  /** The observable state of a socket, as a value. */
  datatype SocketState = SocketState(input: seq<Byte>, output: seq<Byte>, closed: bool, timeout: Timeout)

  function Min(a: nat, b: nat): nat {
    if a < b then a else b
  }

  class Socket {
    var input: seq<Byte>
    var output: seq<Byte>
    var closed: bool
    var timeout: Timeout

    function State(): SocketState
      reads this
    {
      SocketState(input, output, closed, timeout)
    }

    /** An open socket whose peer will send `input`. */
    constructor (input: seq<Byte>, timeout: Timeout)
      ensures State() == SocketState(input, [], false, timeout)
    {
      this.input := input;
      this.output := [];
      this.closed := false;
      this.timeout := timeout;
    }

    /** sendall(data); on a closed socket Python raises OSError, reported here as ok == false. */
    method SendAll(data: seq<Byte>) returns (ok: bool)
      modifies this`output
      ensures ok == !closed
      ensures output == if ok then old(output) + data else old(output)
    {
      ok := !closed;
      if ok {
        output := output + data;
      }
    }

    /** recv(k): the next min(k, remaining) bytes; b'' once the peer's bytes are used up. */
    method Recv(k: nat) returns (chunk: seq<Byte>)
      requires !closed
      modifies this`input
      ensures chunk == old(input)[..Min(k, |old(input)|)]
      ensures input == old(input)[|chunk|..]
    {
      chunk := input[..Min(k, |input|)];
      input := input[|chunk|..];
    }

    /** settimeout(t); on a closed socket Python raises OSError, reported here as ok == false. */
    method SetTimeout(t: Timeout) returns (ok: bool)
      modifies this`timeout
      ensures ok == !closed
      ensures timeout == if ok then t else old(timeout)
    {
      ok := !closed;
      if ok {
        timeout := t;
      }
    }

    method Close()
      modifies this`closed
      ensures closed
    {
      closed := true;
    }
  }
}
