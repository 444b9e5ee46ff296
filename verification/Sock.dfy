/** lib/utils.c (sendAllData), lib/sock.c and lib/http/request_networking.c: sending, waiting for the
    first byte of an answer, whole exchanges, and sessions of several exchanges on one descriptor. */
module Sock {
  import opened Text
  import opened Net
  import opened StringBuilders
  import Http
  import HttpSyntax
  import Receive
  import Serialization

  const DEFAULT_CLIENT_BUF_SIZE: nat := 8192

  type SizeT = x: nat | x < 0x1_0000_0000_0000_0000

  datatype Status = Waiting | Done(ec: int)

  /** `left` is what has not been sent; `closed` is the out-flag. */
  datatype Sent = Sent(net: Net, left: string, closed: bool, status: Status)

  function Closed(net: Net): Net {
    net.(closes := net.closes + 1)
  }

  /** sendAllData with `data` still to send. A timeout ends the call without an error. */
  function SendFrom(net: Net, data: string): Sent
    decreases |net.script|
  {
    if data == "" then Sent(net, "", false, Done(0))
    else if net.script == [] then Sent(net, data, false, Waiting)
    else
      var n := net.Pop();
      match net.script[0]
      case PollFailed => Sent(n, data, false, Done(1))
      case PollTimedOut => Sent(n, data, false, Done(0))
      case PollReady(err, hup, nval, io, count) =>
        if err || hup then Sent(Closed(n), data, true, Done(-1))
        else if nval then Sent(n.(invalid := true), data, true, Done(-1))
        else
          var k := Min(count, |data|);
          SendFrom(n.(sent := n.sent + data[..k]), data[k..])
  }

  method SendAllData(sock: Socket, buf: string) returns (done: bool, ec: int, closed: bool)
    modifies sock
    ensures var r := SendFrom(old(sock.View()), buf);
            && sock.View() == r.net
            && (if done then r.status == Done(ec) && r.closed == closed else r.status.Waiting?)
  {
    closed, ec := false, 0;
    var bytesSent := 0;
    ghost var result := SendFrom(sock.View(), buf);
    assert buf[0..] == buf;
    while bytesSent < |buf|
      invariant 0 <= bytesSent <= |buf|
      invariant SendFrom(sock.View(), buf[bytesSent..]) == result
      decreases |sock.script|
    {
      if sock.script == [] {
        return false, ec, closed;
      }
      var e := sock.Poll();
      if e.PollFailed? {
        return true, 1, closed;
      } else if e.PollTimedOut? {
        return true, 0, closed;
      }
      if e.err {
        sock.Close();
        return true, -1, true;
      } else if e.hup {
        sock.Close();
        return true, -1, true;
      } else if e.nval {
        sock.FoundInvalid();
        return true, -1, true;
      }
      var n := sock.Send(buf[bytesSent..], e.count);
      assert buf[bytesSent..][n..] == buf[bytesSent + n..];
      bytesSent := bytesSent + n;
    }
    done := true;
  }

  // ---- Waiting and receiving

  /** A size_t taken as an ssize_t. The bound the program clamps with is the largest size_t, so the
      clamp does nothing, and sizes of 2^63 and more become negative: no limit. */
  function ToSsize(x: SizeT): int {
    if x < 0x8000_0000_0000_0000 then x else x - 0x1_0000_0000_0000_0000
  }

  datatype Reply = Reply(net: Net, out: Option<string>, closed: bool, status: Status)

  function ClientBufSize(size: int): nat {
    if size < 0 then DEFAULT_CLIENT_BUF_SIZE else size
  }

  function RecvParams(bufSize: int, timeoutIsError: bool, http: bool): Receive.Params {
    Receive.Params(http, timeoutIsError, ClientBufSize(bufSize), 0)
  }

  /** The receive proper, on a builder of its own. */
  function ReceiveReply(net: Net, timeoutIsError: bool, bufSize: int, maxSize: SizeT, http: bool): Reply {
    var p := RecvParams(bufSize, timeoutIsError, http);
    var r := Receive.Run(p, Receive.Start(p, net, ClientBufSize(bufSize), ToSsize(maxSize)));
    match r.status
    case Running => Reply(r.net, None, false, Waiting)
    case Done(ec) => Reply(r.net, if ec == 0 then Some(r.got) else None, r.closed, Done(ec))
  }

  /** waitThenRecvAllData: one poll for the first byte, then the receive. A hang-up seen by that poll
      ends the call without an error and without output. */
  function WaitThenRecv(net: Net, timeoutIsError: bool, bufSize: int, maxSize: SizeT, http: bool): Reply {
    if net.script == [] then Reply(net, None, false, Waiting)
    else
      var n := net.Pop();
      match net.script[0]
      case PollFailed => Reply(n, None, false, Done(1))
      case PollTimedOut => Reply(n, None, false, Done(1))
      case PollReady(err, hup, nval, io, count) =>
        if err then Reply(Closed(n), None, true, Done(-1))
        else if hup then Reply(Closed(n), None, true, Done(0))
        else if nval then Reply(n.(invalid := true), None, true, Done(-1))
        else ReceiveReply(n, timeoutIsError, bufSize, maxSize, http)
  }

  /** The contents of the builder as a string, without the zero byte that ends it in memory. */
  method TakeString(builder: StringBuilder) returns (s: string)
    requires builder.Valid()
    modifies builder
    ensures s == old(builder.Contents())
  {
    var str := builder.BuildAndDestroy();
    s := str[..str.Length - 1];
    assert s == str[..][..str.Length - 1];
  }

  lemma ReplyUnfolds(net: Net, timeoutIsError: bool, bufSize: int, maxSize: SizeT, http: bool)
    requires bufSize != 0
    ensures var size := ClientBufSize(bufSize);
            var p := RecvParams(bufSize, timeoutIsError, http);
            var r := Receive.Run(p, Receive.Start(p, net, size, ToSsize(maxSize)));
            && p == Receive.Params(http, timeoutIsError, Receive.MinCap(size), 0)
            && size != 0 && "" + r.got == r.got
            && ReceiveReply(net, timeoutIsError, bufSize, maxSize, http) ==
               match r.status
               case Running => Reply(r.net, None, false, Waiting)
               case Done(ec) => Reply(r.net, if ec == 0 then Some(r.got) else None, r.closed, Done(ec))
  {
    hide Receive.Run;
    hide Receive.Start;
  }

  method ReceiveReplyOf(sock: Socket, timeoutIsError: bool, bufSize: int, maxSize: SizeT, http: bool)
    returns (done: bool, ec: int, out: Option<string>, closed: bool)
    requires bufSize != 0
    modifies sock
    ensures var r := ReceiveReply(old(sock.View()), timeoutIsError, bufSize, maxSize, http);
            && sock.View() == r.net && out == r.out
            && (if done then r.status == Done(ec) && r.closed == closed else r.status.Waiting?)
  {
    hide Receive.Run;
    hide Receive.Start;
    hide Receive.MinCap;
    hide ReceiveReply;
    hide ClientBufSize;
    hide RecvParams;
    ReplyUnfolds(sock.View(), timeoutIsError, bufSize, maxSize, http);
    out := None;
    var size := ClientBufSize(bufSize);
    var builder := new StringBuilder(size);
    done, ec, closed := Receive.RecvAllData(sock, builder, ToSsize(maxSize), timeoutIsError, size, http);
    if done && ec == 0 {
      var s := TakeString(builder);
      out := Some(s);
    }
  }

  method WaitThenRecvAllData(sock: Socket, timeoutIsError: bool, bufSize: int, maxSize: SizeT, http: bool)
    returns (done: bool, ec: int, out: Option<string>, closed: bool)
    requires bufSize != 0
    modifies sock
    ensures var r := WaitThenRecv(old(sock.View()), timeoutIsError, bufSize, maxSize, http);
            && sock.View() == r.net && out == r.out
            && (if done then r.status == Done(ec) && r.closed == closed else r.status.Waiting?)
  {
    hide ReceiveReply;
    if sock.script == [] {
      return false, 0, None, false;
    }
    var e := sock.Poll();
    if e.PollFailed? || e.PollTimedOut? {
      return true, 1, None, false;
    } else if e.err {
      sock.Close();
      return true, -1, None, true;
    } else if e.hup {
      sock.Close();
      return true, 0, None, true;
    } else if e.nval {
      sock.FoundInvalid();
      return true, -1, None, true;
    }
    done, ec, out, closed := ReceiveReplyOf(sock, timeoutIsError, bufSize, maxSize, http);
  }

  // ---- One exchange on a descriptor of its own

  /** Closes the descriptor after an error that left it open. */
  function AfterError(net: Net, ec: int): Net {
    if ec > 0 then Closed(net) else net
  }

  function ExchangeReply(r: Reply): Reply {
    match r.status
    case Waiting => r
    case Done(ec) =>
      if ec != 0 then Reply(AfterError(r.net, ec), None, r.closed, Done(1))
      else Reply(if r.closed then r.net else Closed(r.net), r.out, r.closed, Done(0))
  }

  /** newSocketSendReceiveClose on a descriptor that has been connected. */
  function Exchange(net: Net, data: string, timeoutIsError: bool, bufSize: int, maxSize: SizeT, http: bool): Reply {
    var s := SendFrom(net, data);
    match s.status
    case Waiting => Reply(s.net, None, false, Waiting)
    case Done(ec) =>
      if s.closed then Reply(s.net, None, true, Done(1))
      else if ec != 0 then Reply(AfterError(s.net, ec), None, false, Done(1))
      else ExchangeReply(WaitThenRecv(s.net, timeoutIsError, bufSize, maxSize, http))
  }

  method NewSocketSendReceiveClose(sock: Socket, data: string, timeoutIsError: bool, bufSize: int, maxSize: SizeT, http: bool)
    returns (done: bool, err: int, out: Option<string>)
    requires bufSize != 0
    modifies sock
    ensures var r := Exchange(old(sock.View()), data, timeoutIsError, bufSize, maxSize, http);
            && sock.View() == r.net && out == r.out
            && (if done then r.status == Done(err) else r.status.Waiting?)
  {
    hide SendFrom;
    hide WaitThenRecv;
    out := None;
    var closed;
    done, err, closed := SendAllData(sock, data);
    if !done { return; }
    if closed {
      return true, 1, None;
    }
    if err != 0 {
      if err > 0 { sock.Close(); }
      return true, 1, None;
    }
    done, err, out, closed := WaitThenRecvAllData(sock, timeoutIsError, bufSize, maxSize, http);
    if !done { return; }
    if err != 0 {
      if err > 0 { sock.Close(); }
      return true, 1, None;
    }
    if !closed {
      sock.Close();
    }
  }

  // ---- Sessions

  /** What one request in a session leaves behind: the reply, and whether the session is still open. */
  datatype Turn = Turn(reply: Reply, isOpen: bool)

  function RequestInSession(net: Net, req: string, maxSize: SizeT): Turn {
    var s := SendFrom(net, req);
    match s.status
    case Waiting => Turn(Reply(s.net, None, s.closed, Waiting), true)
    case Done(ec) =>
      if ec != 0 then Turn(Reply(s.net, None, s.closed, Done(ec)), !s.closed)
      else
        var r := WaitThenRecv(s.net, true, -1, maxSize, true);
        Turn(r, !s.closed && !r.closed)
  }

  class Session {
    const sock: Socket
    var isOpen: bool

    constructor (sock: Socket)
      ensures this.sock == sock && isOpen
    {
      this.sock := sock;
      isOpen := true;
    }

    method HttpRawRequestInSession(req: string, maxSize: SizeT) returns (done: bool, ec: int, out: Option<string>)
      requires isOpen
      modifies this, sock
      ensures var t := RequestInSession(old(sock.View()), req, maxSize);
              && sock.View() == t.reply.net && out == t.reply.out
              && (if done then t.reply.status == Done(ec) && isOpen == t.isOpen else t.reply.status.Waiting?)
    {
      hide SendFrom;
      hide WaitThenRecv;
      out := None;
      var closed;
      done, ec, closed := SendAllData(sock, req);
      if !done { return; }
      if closed {
        isOpen := false;
      }
      if ec != 0 { return; }
      done, ec, out, closed := WaitThenRecvAllData(sock, true, -1, maxSize, true);
      if done && closed {
        isOpen := false;
      }
    }

    /** httpRequestInSession: the request is serialized first; one that cannot be is not sent. */
    method HttpRequestInSession(req: Http.Request, maxSize: SizeT) returns (done: bool, ec: int, out: Option<string>)
      requires isOpen
      modifies this, sock
      ensures match HttpSyntax.RequestText(req)
              case None => done && ec == 1 && out.None? && isOpen && sock.View() == old(sock.View())
              case Some(text) =>
                var t := RequestInSession(old(sock.View()), text, maxSize);
                && sock.View() == t.reply.net && out == t.reply.out
                && (if done then t.reply.status == Done(ec) && isOpen == t.isOpen else t.reply.status.Waiting?)
    {
      hide RequestInSession;
      hide HttpSyntax.RequestText;
      var builder := new StringBuilder(0);
      var err := Serialization.SerializeHttpRequest(req, builder);
      if err {
        return true, 1, None;
      }
      ghost var text := HttpSyntax.RequestText(req).value;
      assert builder.Contents() == "" + text && "" + text == text;
      var str := TakeString(builder);
      done, ec, out := HttpRawRequestInSession(str, maxSize);
    }
  }
}
