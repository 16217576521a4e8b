/**
 * The WebSocket echo handler: every text frame is answered with `"Echo: "` and its text; a
 * close frame, a read error or the end of the stream ends the connection, and so does a
 * failed send. The socket is a class whose inbound frames are a finite list and whose sends
 * succeed or fail as an outcome oracle decides.
 */
module WebSocket {
  import opened Wrappers

  /** What one `socket.next()` can deliver; the end of the list is the end of the stream. */
  datatype Inbound = Text(text: string) | Close | Other | RecvErr

  const EchoPrefix: string := "Echo: "

  function Echo(t: string): string {
    EchoPrefix + t
  }

  /** The record of one connection: echoes written, frames read, send calls made, and why it ended. */
  datatype Served = Served(echoed: seq<string>, consumed: nat, attempts: nat, sendFailed: bool)

  /** A frame that ends the loop on arrival. */
  predicate Stops(f: Inbound) {
    f.Close? || f.RecvErr?
  }

  /**
   * `handle_socket` as a function of the frames still to come, the number of sends made so
   * far and the oracle saying whether the send with a given number succeeds.
   */
  function Serve(frames: seq<Inbound>, sent: nat, sendOk: nat -> bool): (r: Served)
    ensures r.consumed <= |frames|
    ensures r.attempts == |r.echoed| + if r.sendFailed then 1 else 0
    ensures r.sendFailed ==> 0 < r.consumed && frames[r.consumed - 1].Text?
    ensures r.consumed < |frames| ==> r.consumed > 0
    decreases |frames|
  {
    if frames == [] then Served([], 0, 0, false)
    else
      match frames[0]
      case Close => Served([], 1, 0, false)
      case RecvErr => Served([], 1, 0, false)
      case Other =>
        var rest := Serve(frames[1..], sent, sendOk);
        Served(rest.echoed, rest.consumed + 1, rest.attempts, rest.sendFailed)
      case Text(t) =>
        if !sendOk(sent) then Served([], 1, 1, true)
        else
          var rest := Serve(frames[1..], sent + 1, sendOk);
          Served([Echo(t)] + rest.echoed, rest.consumed + 1, rest.attempts + 1, rest.sendFailed)
  }

  /** The echo of every text frame of `frames`, in order: what an unhindered echo server sends. */
  function EchoAll(frames: seq<Inbound>): seq<string> {
    if frames == [] then []
    else if frames[0].Text? then [Echo(frames[0].text)] + EchoAll(frames[1..])
    else EchoAll(frames[1..])
  }

  /** The number of text frames in `frames`. */
  function CountTexts(frames: seq<Inbound>): nat {
    if frames == [] then 0 else (if frames[0].Text? then 1 else 0) + CountTexts(frames[1..])
  }

  /** The index of the first close frame or read error, or the length when there is none. */
  function FirstStop(frames: seq<Inbound>): (k: nat)
    ensures k <= |frames|
    ensures k < |frames| ==> Stops(frames[k])
    ensures forall i :: 0 <= i < k ==> !Stops(frames[i])
  {
    if frames == [] || Stops(frames[0]) then 0 else 1 + FirstStop(frames[1..])
  }

  lemma {:induction false} EchoAllLength(frames: seq<Inbound>)
    ensures |EchoAll(frames)| == CountTexts(frames)
  {
    if frames != [] {
      EchoAllLength(frames[1..]);
    }
  }

  /** Echoing a list split in two is echoing each part. */
  lemma {:induction false} EchoAllAppend(a: seq<Inbound>, b: seq<Inbound>)
    ensures EchoAll(a + b) == EchoAll(a) + EchoAll(b)
  {
    if a == [] {
      assert a + b == b;
    } else {
      assert (a + b)[0] == a[0] && (a + b)[1..] == a[1..] + b;
      EchoAllAppend(a[1..], b);
    }
  }

  /**
   * Each text frame read yields one echo, in arrival order: the echoes written are exactly the
   * echoes of the text frames read, less the last one when its send failed.
   */
  lemma {:induction false} EchoesInOrder(frames: seq<Inbound>, sent: nat, sendOk: nat -> bool)
    ensures var r := Serve(frames, sent, sendOk);
      if r.sendFailed then
        r.echoed + [Echo(frames[r.consumed - 1].text)] == EchoAll(frames[..r.consumed])
      else
        r.echoed == EchoAll(frames[..r.consumed])
    decreases |frames|
  {
    if frames != [] {
      var r := Serve(frames, sent, sendOk);
      assert frames[..1] + frames[1..][..r.consumed - 1] == frames[..r.consumed];
      match frames[0]
      case Close =>
      case RecvErr =>
      case Other =>
        EchoesInOrder(frames[1..], sent, sendOk);
        EchoAllAppend(frames[..1], frames[1..][..r.consumed - 1]);
      case Text(t) =>
        if sendOk(sent) {
          EchoesInOrder(frames[1..], sent + 1, sendOk);
          EchoAllAppend(frames[..1], frames[1..][..r.consumed - 1]);
        } else {
          assert frames[..r.consumed] == [Text(t)];
        }
    }
  }

  /** No frame after the first close or read error is read, so none of them is echoed. */
  lemma {:induction false} StopsAtFirstStop(frames: seq<Inbound>, sent: nat, sendOk: nat -> bool)
    ensures var r := Serve(frames, sent, sendOk);
      r.consumed <= FirstStop(frames) + 1
    decreases |frames|
  {
    if frames != [] && !Stops(frames[0]) {
      StopsAtFirstStop(frames[1..], if frames[0].Text? then sent + 1 else sent, sendOk);
    }
  }

  /** A close frame at position `i` ends the loop there: nothing after it is read. */
  lemma CloseEndsLoop(frames: seq<Inbound>, sent: nat, sendOk: nat -> bool, i: nat)
    requires i < |frames| && frames[i] == Close
    ensures Serve(frames, sent, sendOk).consumed <= i + 1
  {
    StopsAtFirstStop(frames, sent, sendOk);
  }

  /** Frames that are neither text nor close are skipped and the loop goes on as before. */
  lemma OtherIgnored(frames: seq<Inbound>, sent: nat, sendOk: nat -> bool)
    ensures var r := Serve(frames, sent, sendOk);
      Serve([Other] + frames, sent, sendOk) == Served(r.echoed, r.consumed + 1, r.attempts, r.sendFailed)
  {
    assert ([Other] + frames)[1..] == frames;
  }

  /**
   * A failed send is the last thing that happens: every earlier send succeeded, and the loop
   * stopped with the text frame whose echo failed.
   */
  lemma {:induction false} FailedSendEndsLoop(frames: seq<Inbound>, sent: nat, sendOk: nat -> bool)
    ensures var r := Serve(frames, sent, sendOk);
      && (forall k :: sent <= k < sent + |r.echoed| ==> sendOk(k))
      && (r.sendFailed <==> r.attempts > |r.echoed|)
      && (r.sendFailed ==> !sendOk(sent + |r.echoed|) && frames[r.consumed - 1].Text?)
    decreases |frames|
  {
    if frames != [] && !Stops(frames[0]) {
      FailedSendEndsLoop(frames[1..], if frames[0].Text? then sent + 1 else sent, sendOk);
    }
  }

  /** Never more echoes than text frames; exactly the text frames before the first stop when every send succeeds. */
  lemma {:induction false} EchoCount(frames: seq<Inbound>, sent: nat, sendOk: nat -> bool)
    ensures |Serve(frames, sent, sendOk).echoed| <= CountTexts(frames)
    ensures (forall k :: sendOk(k)) ==>
      Serve(frames, sent, sendOk).echoed == EchoAll(frames[..FirstStop(frames)])
    decreases |frames|
  {
    if frames != [] {
      var next := if frames[0].Text? then sent + 1 else sent;
      EchoCount(frames[1..], next, sendOk);
      if !Stops(frames[0]) {
        assert frames[..FirstStop(frames)] == frames[..1] + frames[1..][..FirstStop(frames[1..])];
        EchoAllAppend(frames[..1], frames[1..][..FirstStop(frames[1..])]);
      }
    }
  }

  /** Every echo carries the prefix followed by a text that arrived. */
  lemma AllSentTextsAreEchoes(frames: seq<Inbound>, sent: nat, sendOk: nat -> bool, i: nat)
    requires i < |Serve(frames, sent, sendOk).echoed|
    ensures exists j :: 0 <= j < |frames| && frames[j].Text? && Serve(frames, sent, sendOk).echoed[i] == Echo(frames[j].text)
  {
    var r := Serve(frames, sent, sendOk);
    EchoesInOrder(frames, sent, sendOk);
    var read := frames[..r.consumed];
    assert r.echoed[i] == EchoAll(read)[i];
    EchoAllFrom(read, i);
  }

  /** Every entry of EchoAll is the echo of some text frame. */
  lemma {:induction false} EchoAllFrom(frames: seq<Inbound>, i: nat)
    requires i < |EchoAll(frames)|
    ensures exists j :: 0 <= j < |frames| && frames[j].Text? && EchoAll(frames)[i] == Echo(frames[j].text)
  {
    if !(frames[0].Text? && i == 0) {
      var i' := if frames[0].Text? then i - 1 else i;
      EchoAllFrom(frames[1..], i');
      var j :| 0 <= j < |frames[1..]| && frames[1..][j].Text? && EchoAll(frames[1..])[i'] == Echo(frames[1..][j].text);
      assert frames[j + 1] == frames[1..][j];
    }
  }

  // ---------------------------------------------------------------------------------------------
  // The socket and the loop over it

  /** A WebSocket connection: frames yet to arrive, frames sent so far, and the send oracle. */
  class Socket {
    /** Frames the peer has yet to deliver. */
    var incoming: seq<Inbound>
    /** Text frames written to the peer successfully, in order. */
    var outgoing: seq<string>
    /** Number of `send` calls made so far. */
    var sendCount: nat
    /** Whether the send with a given number succeeds. */
    const sendOk: nat -> bool

    constructor (frames: seq<Inbound>, sendOk: nat -> bool)
      ensures incoming == frames && outgoing == [] && sendCount == 0 && this.sendOk == sendOk
    {
      incoming := frames;
      outgoing := [];
      sendCount := 0;
      this.sendOk := sendOk;
    }

    /** `socket.next()`: the next frame, or None at the end of the stream. */
    method Next() returns (m: Option<Inbound>)
      modifies this
      ensures old(incoming) == [] ==> m == None && incoming == []
      ensures old(incoming) != [] ==> m == Some(old(incoming)[0]) && incoming == old(incoming)[1..]
      ensures outgoing == old(outgoing) && sendCount == old(sendCount)
    {
      if incoming == [] {
        m := None;
      } else {
        m := Some(incoming[0]);
        incoming := incoming[1..];
      }
    }

    /** `socket.send(Text(text))`: succeeds as the oracle says; only a success reaches the peer. */
    method Send(text: string) returns (ok: bool)
      modifies this
      ensures ok == sendOk(old(sendCount)) && sendCount == old(sendCount) + 1
      ensures outgoing == if ok then old(outgoing) + [text] else old(outgoing)
      ensures incoming == old(incoming)
    {
      ok := sendOk(sendCount);
      sendCount := sendCount + 1;
      if ok {
        outgoing := outgoing + [text];
      }
    }
  }

  /** `handle_socket`: echo text frames until the stream ends, a close or error arrives, or a send fails. */
  method HandleSocket(socket: Socket)
    modifies socket
    ensures var r := Serve(old(socket.incoming), old(socket.sendCount), socket.sendOk);
      && socket.outgoing == old(socket.outgoing) + r.echoed
      && socket.incoming == old(socket.incoming)[r.consumed..]
      && socket.sendCount == old(socket.sendCount) + r.attempts
  {
    ghost var frames0, out0, sent0 := socket.incoming, socket.outgoing, socket.sendCount;
    ghost var total := Serve(frames0, sent0, socket.sendOk);
    while true
      invariant |socket.incoming| <= |frames0|
      invariant socket.incoming == frames0[|frames0| - |socket.incoming|..]
      invariant var r := Serve(socket.incoming, socket.sendCount, socket.sendOk);
        && out0 + total.echoed == socket.outgoing + r.echoed
        && total.consumed == |frames0| - |socket.incoming| + r.consumed
        && sent0 + total.attempts == socket.sendCount + r.attempts
      decreases |socket.incoming|
    {
      ghost var before := socket.incoming;
      var m := socket.Next();
      if m.None? {
        break;
      }
      assert before[1..] == socket.incoming;
      match m.value
      case Text(t) =>
        var ok := socket.Send(Echo(t));
        if !ok {
          break;
        }
      case Close =>
        break;
      case RecvErr =>
        break;
      case Other =>
    }
    assert socket.outgoing == out0 + total.echoed;
  }
}
