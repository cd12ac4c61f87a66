/** Sender and receiver in lock step over a line that may damage transmissions: what the
    retry loop of SendPacket and the checksum of ReceivePacket guarantee together. */
module GdbDelivery {
  import opened Basics
  import opened GdbBytes
  import opened GdbPacket
  import opened GdbGrammar

  /** Where both ends stand: the receiver, the replies it has sent, how often the packet was
      transmitted, and what the sender returned (None while it waits for a reply). */
  datatype Outcome = Outcome(rx: Rx, replies: seq<byte>, transmissions: nat, returned: Option<nat>)

  /** What the line delivers for the next transmission: the damaged bytes listed in `faults`
      first, intact frames afterwards. */
  function Wire(payload: seq<byte>, faults: seq<seq<byte>>): seq<byte>
  {
    if faults == [] then Frame(payload) else faults[0]
  }

  function Remaining(faults: seq<seq<byte>>): seq<seq<byte>>
  {
    if faults == [] then [] else faults[1..]
  }

  function Exchange(size: nat, payload: seq<byte>, retries: nat, count: nat, faults: seq<seq<byte>>,
                    rx: Rx, queue: seq<byte>): (o: Outcome)
    decreases retries
  {
    if retries == 0 then Outcome(rx, [], 0, Some(count))
    else
      var r := Receive(size, rx, Wire(payload, faults));
      var pending := queue + r.replies;
      if pending == [] then Outcome(r.rx, r.replies, 1, None)
      else if pending[0] == PLUS then Outcome(r.rx, r.replies, 1, Some(|payload|))
      else
        var o := Exchange(size, payload, retries - 1, |payload|, Remaining(faults), r.rx, pending[1..]);
        Outcome(o.rx, r.replies + o.replies, 1 + o.transmissions, o.returned)
  }

  /** The bytes the line delivered for the first `n` transmissions. */
  function Delivered(payload: seq<byte>, faults: seq<seq<byte>>, n: nat): seq<byte>
  {
    if n == 0 then [] else Wire(payload, faults) + Delivered(payload, Remaining(faults), n - 1)
  }

  // ----- the exchange is SendPacket on one side and ReceivePacket on the other

  lemma {:induction false} SenderSide(size: nat, payload: seq<byte>, retries: nat, count: nat,
                                      faults: seq<seq<byte>>, rx: Rx, queue: seq<byte>)
    ensures var o := Exchange(size, payload, retries, count, faults, rx, queue);
            var s := Send(payload, retries, count, queue + o.replies);
            s.transmissions == o.transmissions && s.returned == o.returned
    decreases retries
  {
    hide Receive, Send;
    var o := Exchange(size, payload, retries, count, faults, rx, queue);
    SendUnfolds(payload, retries, count, 0, queue + o.replies);
    if retries > 0 {
      var r := Receive(size, rx, Wire(payload, faults));
      var pending := queue + r.replies;
      if pending != [] && pending[0] != PLUS {
        var o' := Exchange(size, payload, retries - 1, |payload|, Remaining(faults), r.rx, pending[1..]);
        SenderSide(size, payload, retries - 1, |payload|, Remaining(faults), r.rx, pending[1..]);
        PendingReplies(queue, r.replies, o'.replies);
      }
    }
  }

  lemma PendingReplies(queue: seq<byte>, now: seq<byte>, later: seq<byte>)
    requires queue + now != []
    ensures (queue + (now + later))[0] == (queue + now)[0]
    ensures (queue + (now + later))[1..] == (queue + now)[1..] + later
  {
    assert queue + (now + later) == (queue + now) + later;
  }

  lemma {:induction false} ReceiveAppend(size: nat, rx: Rx, s: seq<byte>, t: seq<byte>)
    ensures var a := Receive(size, rx, s);
            var b := Receive(size, a.rx, t);
            var ab := Receive(size, rx, s + t);
            ab.rx == b.rx && ab.replies == a.replies + b.replies
    decreases |s|
  {
    hide Next, Reply;
    if rx.Done? {
    } else if s == [] {
      assert s + t == t;
    } else {
      ReceiveAppend(size, Next(size, rx, s[0]), s[1..], t);
      assert (s + t)[1..] == s[1..] + t;
    }
  }

  lemma {:induction false} ReceiverSide(size: nat, payload: seq<byte>, retries: nat, count: nat,
                                        faults: seq<seq<byte>>, rx: Rx, queue: seq<byte>)
    ensures var o := Exchange(size, payload, retries, count, faults, rx, queue);
            var r := Receive(size, rx, Delivered(payload, faults, o.transmissions));
            r.rx == o.rx && r.replies == o.replies
    decreases retries
  {
    NothingLeft(size, 0, rx);
    hide Receive, Wire, After;
    if retries > 0 {
      var wire := Wire(payload, faults);
      var r := Receive(size, rx, wire);
      var pending := queue + r.replies;
      if pending == [] || pending[0] == PLUS {
        assert Delivered(payload, faults, 1) == wire + Delivered(payload, Remaining(faults), 0) == wire;
      } else {
        var o := Exchange(size, payload, retries - 1, |payload|, Remaining(faults), r.rx, pending[1..]);
        assert Exchange(size, payload, retries, count, faults, rx, queue)
            == Outcome(o.rx, r.replies + o.replies, 1 + o.transmissions, o.returned);
        ReceiverSide(size, payload, retries - 1, |payload|, Remaining(faults), r.rx, pending[1..]);
        ReceiveAppend(size, rx, wire, Delivered(payload, Remaining(faults), o.transmissions));
      }
    }
  }

  // ----- delivery

  /** A transmission of `payload` whose data bytes arrive as `data`. */
  function Damaged(payload: seq<byte>, data: seq<byte>): seq<byte>
  {
    [DOLLAR] + data + [HASH] + HexByte(Sum(payload))
  }

  predicate Fits(size: nat, payload: seq<byte>)
  {
    Clean(payload) && |payload| + 2 <= size
  }

  /** For data that keeps the framing, the receiver accepts if and only if the 8-bit sum is
      the one sent; it then returns the data as it arrived. */
  lemma {:induction false} AcceptedIffSumMatches(size: nat, payload: seq<byte>, data: seq<byte>)
    requires Fits(size, data)
    ensures Receive(size, Hunting, Damaged(payload, data)) ==
            if Sum(data) == Sum(payload) then Reception(Done(data), [PLUS], |data| + 4)
            else Reception(Hunting, [MINUS], |data| + 4)
  {
    var digits := HexByte(Sum(payload));
    var a := Attempt([], [], data, digits[0], digits[1]);
    HexByteReadsBack(Sum(payload));
    assert digits == [digits[0], digits[1]];
    assert AttemptBytes(size, a) + [] == Damaged(payload, data);
    AttemptIsAnswered(size, a, []);
  }

  /** An intact frame is received as its payload if and only if the payload leaves room for its NUL and
      the '#', or for the NUL alone and has a sum of zero: the '#' is then read as the first digit. */
  lemma {:induction false} FrameArrivesIff(size: nat, payload: seq<byte>)
    requires size >= 1 && Clean(payload)
    ensures Receive(size, Hunting, Frame(payload)).rx == Done(payload) <==>
            |payload| + 2 <= size || (|payload| + 1 == size && Sum(payload) == 0)
  {
    if |payload| + 2 <= size {
      AcceptedIffSumMatches(size, payload, payload);
      assert Damaged(payload, payload) == Frame(payload);
    } else if |payload| + 1 == size {
      FullBuffer(size, payload);
    } else {
      ReceivedFits(size, Frame(payload), payload);
    }
  }

  lemma {:induction false} ReceivedFits(size: nat, s: seq<byte>, payload: seq<byte>)
    requires size >= 1
    ensures Receive(size, Hunting, s).rx == Done(payload) ==> |payload| + 1 <= size
  {
    hide Receive, Stream;
    var attempts := FromTheBeginning(size, s);
  }

  lemma {:induction false} FullBuffer(size: nat, payload: seq<byte>)
    requires Clean(payload) && |payload| + 1 == size
    ensures Receive(size, Hunting, Frame(payload)).rx == Done(payload) <==> Sum(payload) == 0
  {
    var digits := HexByte(Sum(payload));
    var a, rest := Attempt([], [], payload, HASH, digits[0]), [digits[1]];
    assert AttemptBytes(size, a) + rest == Frame(payload);
    AttemptIsAnswered(size, a, rest);
    HashIsZero(digits[0]);
    hide Sum, HexByte;
    if !Good(a) {
      NoiseIsSkipped(size, rest, []);
      assert rest + [] == rest;
    }
  }

  lemma {:induction false} HashIsZero(d: byte)
    ensures StrHexToUintn([HASH, d]) == 0
  {
    assert SkipBlanks([HASH, d]) == [HASH, d] && SkipZeros([HASH, d]) == [HASH, d];
  }

  /** Data of the i-th damaged transmission; each keeps the framing and changes the sum. */
  predicate DetectablyDamaged(size: nat, payload: seq<byte>, data: seq<seq<byte>>)
  {
    forall d <- data :: Fits(size, d) && Sum(d) != Sum(payload)
  }

  function DamagedWires(payload: seq<byte>, data: seq<seq<byte>>): (w: seq<seq<byte>>)
    ensures |w| == |data| && forall i :: 0 <= i < |w| ==> w[i] == Damaged(payload, data[i])
  {
    seq(|data|, i requires 0 <= i < |data| => Damaged(payload, data[i]))
  }

  /** How an exchange ends after `k` damaged transmissions: k times '-'; if k is below the retry
      count, the receiver returns exactly the payload on transmission k+1 and the sender stops
      there with its length; otherwise the sender gives up after `retries` transmissions and the
      receiver is still waiting for a packet. */
  function Ending(payload: seq<byte>, retries: nat, count: nat, k: nat): Outcome
  {
    if k < retries then Outcome(Done(payload), Repeat(MINUS, k) + [PLUS], k + 1, Some(|payload|))
    else Outcome(Hunting, Repeat(MINUS, retries), retries, Some(if retries == 0 then count else |payload|))
  }

  lemma {:induction false} EndToEnd(size: nat, payload: seq<byte>, retries: nat, count: nat, data: seq<seq<byte>>)
    requires Fits(size, payload) && DetectablyDamaged(size, payload, data)
    ensures Exchange(size, payload, retries, count, DamagedWires(payload, data), Hunting, []) ==
            Ending(payload, retries, count, |data|)
    decreases retries
  {
    hide Receive, Sum, Exchange, Ending;
    if retries == 0 {
      NothingIsSent(size, payload, count, DamagedWires(payload, data), |data|);
    } else if data == [] {
      IntactIsDelivered(size, payload, retries, count);
      assert DamagedWires(payload, data) == [];
    } else {
      FirstIsResent(size, payload, retries, count, data);
      EndToEnd(size, payload, retries - 1, |payload|, data[1..]);
      EndingUnfolds(payload, retries, count, |data|);
    }
  }

  lemma {:induction false} NothingIsSent(size: nat, payload: seq<byte>, count: nat, faults: seq<seq<byte>>, k: nat)
    ensures Exchange(size, payload, 0, count, faults, Hunting, []) == Ending(payload, 0, count, k)
  {
    assert Repeat(MINUS, 0) == [];
  }

  lemma {:induction false} FirstIsResent(size: nat, payload: seq<byte>, retries: nat, count: nat, data: seq<seq<byte>>)
    requires retries > 0 && data != [] && Fits(size, data[0]) && Sum(data[0]) != Sum(payload)
    ensures var o := Exchange(size, payload, retries - 1, |payload|, DamagedWires(payload, data[1..]), Hunting, []);
            Exchange(size, payload, retries, count, DamagedWires(payload, data), Hunting, []) ==
              Outcome(o.rx, [MINUS] + o.replies, 1 + o.transmissions, o.returned)
  {
    hide Receive, Sum, Damaged, Exchange;
    var wires := DamagedWires(payload, data);
    AcceptedIffSumMatches(size, payload, data[0]);
    NakIsResent(size, payload, retries, count, wires);
    assert wires[1..] == DamagedWires(payload, data[1..]);
  }

  lemma {:induction false} IntactIsDelivered(size: nat, payload: seq<byte>, retries: nat, count: nat)
    requires Fits(size, payload) && retries > 0
    ensures Exchange(size, payload, retries, count, [], Hunting, []) == Ending(payload, retries, count, 0)
  {
    hide Receive, Sum;
    assert Damaged(payload, payload) == Frame(payload);
    AcceptedIffSumMatches(size, payload, payload);
    assert Repeat(MINUS, 0) + [PLUS] == [PLUS] && [] + [PLUS] == [PLUS];
  }

  lemma {:induction false} EndingUnfolds(payload: seq<byte>, retries: nat, count: nat, k: nat)
    requires retries > 0 && k > 0
    ensures var o := Ending(payload, retries - 1, |payload|, k - 1);
            Ending(payload, retries, count, k) == Outcome(o.rx, [MINUS] + o.replies, 1 + o.transmissions, o.returned)
  {
    var n := if k < retries then k else retries;
    RepeatSnoc(MINUS, n - 1);
    assert [MINUS] + (Repeat(MINUS, n - 1) + [PLUS]) == Repeat(MINUS, n) + [PLUS];
  }

  /** A transmission answered with '-' is followed by the exchange with one retry less. */
  lemma {:induction false} NakIsResent(size: nat, payload: seq<byte>, retries: nat, count: nat, faults: seq<seq<byte>>)
    requires retries > 0 && faults != []
    requires Receive(size, Hunting, faults[0]).rx == Hunting && Receive(size, Hunting, faults[0]).replies == [MINUS]
    ensures var o := Exchange(size, payload, retries - 1, |payload|, faults[1..], Hunting, []);
            Exchange(size, payload, retries, count, faults, Hunting, []) ==
              Outcome(o.rx, [MINUS] + o.replies, 1 + o.transmissions, o.returned)
  {
    hide Receive;
    assert [] + [MINUS] == [MINUS] && [MINUS][1..] == [];
  }

  /** Damage to one byte of the data, leaving '$' and '#' alone. */
  datatype Flip = Flip(at: nat, to: byte)

  predicate Flips(payload: seq<byte>, f: Flip)
  {
    f.at < |payload| && f.to != payload[f.at] && f.to != DOLLAR && f.to != HASH
  }

  function Flipped(payload: seq<byte>, flips: seq<Flip>): (d: seq<seq<byte>>)
    requires forall i :: 0 <= i < |flips| ==> Flips(payload, flips[i])
  {
    seq(|flips|, i requires 0 <= i < |flips| => assert Flips(payload, flips[i]); payload[flips[i].at := flips[i].to])
  }

  /** Any k < retries transmissions with one changed byte each: k naks, then delivery. */
  lemma {:induction false} OneByteErrorsAreRepaired(size: nat, payload: seq<byte>, retries: nat, flips: seq<Flip>)
    requires Fits(size, payload) && |flips| < retries
    requires forall i :: 0 <= i < |flips| ==> Flips(payload, flips[i])
    ensures Exchange(size, payload, retries, 0, DamagedWires(payload, Flipped(payload, flips)), Hunting, []) ==
            Outcome(Done(payload), Repeat(MINUS, |flips|) + [PLUS], |flips| + 1, Some(|payload|))
  {
    var data := Flipped(payload, flips);
    forall d | d in data
      ensures Fits(size, d) && Sum(d) != Sum(payload)
    {
      var i :| 0 <= i < |data| && data[i] == d;
      var f := flips[i];
      SumDetectsOneByte(payload, f.at, f.to);
      assert forall c <- d :: c == f.to || c in payload;
    }
    EndToEnd(size, payload, retries, 0, data);
  }
}
