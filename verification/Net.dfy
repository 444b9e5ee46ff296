/** The socket and the kernel behind it, as a finite script of outcomes that the environment chooses. */
module Net {
  /** What one `poll`, and the `send` or `recv` after it, came to. `io` stands for readability or
      writability, and `count` is the largest number of bytes the transfer may move. */
  datatype Event =
    | PollFailed
    | PollTimedOut
    | PollReady(err: bool, hup: bool, nval: bool, io: bool, count: nat)

  /** A connected descriptor: the script still to come, the bytes the peer has yet to deliver, the
      bytes sent to it, how often the descriptor was closed, and whether it was found to be invalid. */
  datatype Net = Net(script: seq<Event>, incoming: string, sent: string, closes: nat, invalid: bool) {
    function Pop(): Net
      requires script != []
    {
      this.(script := script[1..])
    }
  }

  /** The last of the events taken from the script. */
  function LastTaken(before: seq<Event>, after: seq<Event>): Event
    requires |after| < |before|
  {
    before[|before| - |after| - 1]
  }

  /** The last of the events taken from the script was a timeout. */
  predicate EndsInTimeout(before: seq<Event>, after: seq<Event>) {
    |after| < |before| && before[|before| - |after| - 1].PollTimedOut?
  }

  function Min(a: nat, b: nat): nat {
    if a < b then a else b
  }

  class Socket {
    var script: seq<Event>
    var incoming: string
    var sent: string
    var closes: nat
    var invalid: bool

    function View(): Net
      reads this
    {
      Net(script, incoming, sent, closes, invalid)
    }

    method Poll() returns (e: Event)
      requires script != []
      modifies this`script
      ensures e == old(script)[0] && View() == old(View()).Pop()
    {
      e := script[0];
      script := script[1..];
    }

    /** Moves up to `want` of the incoming bytes to `buf[off..]`. */
    method Recv(buf: array<char>, off: nat, want: nat, count: nat) returns (n: nat)
      requires off + want <= buf.Length
      modifies this`incoming, buf
      ensures n == Min(Min(count, want), |old(incoming)|)
      ensures incoming == old(incoming)[n..]
      ensures buf[..off + n] == old(buf[..off]) + old(incoming)[..n]
    {
      n := Min(Min(count, want), |incoming|);
      var i := 0;
      while i < n
        invariant 0 <= i <= n
        invariant buf[..off + i] == old(buf[..off]) + incoming[..i]
        modifies buf
      {
        buf[off + i] := incoming[i];
        assert buf[..off + (i + 1)] == buf[..off + i] + [incoming[i]];
        i := i + 1;
      }
      incoming := incoming[n..];
    }

    method Send(data: string, count: nat) returns (n: nat)
      modifies this`sent
      ensures n == Min(count, |data|) && sent == old(sent) + data[..n]
    {
      n := Min(count, |data|);
      sent := sent + data[..n];
    }

    method Close()
      modifies this`closes
      ensures closes == old(closes) + 1
    {
      closes := closes + 1;
    }

    method FoundInvalid()
      modifies this`invalid
      ensures invalid
    {
      invalid := true;
    }
  }
}
