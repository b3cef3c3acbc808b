/** What the kernel answers when a socket is read or written. */
module Sockets {
  /** recv: no bytes means the peer closed. */
  datatype RecvResult = Received(bytes: string) | RecvWouldBlock | RecvFailed

  /** send: any number of bytes; no more than was offered is ever taken. */
  datatype SendResult = Accepted(count: nat) | SendWouldBlock | SendFailed

  /** How many of the offered bytes a send takes. */
  function Take(s: SendResult, offered: nat): (n: nat)
    ensures n <= offered
  {
    if s.Accepted? then if s.count < offered then s.count else offered else 0
  }
}
