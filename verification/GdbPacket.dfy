/** The packet layer of the GDB remote serial protocol: SendPacket and ReceivePacket over
    a serial line, and what the receiver's byte automaton accepts on every byte stream. */
module GdbPacket {
  import opened Basics
  import opened GdbBytes

  /** The serial line as the stub sees it: bytes that will arrive, bytes put so far.
      A read from an empty `input` is a read that blocks. */
  class SerialLine {
    var input: seq<byte>
    var output: seq<byte>

    constructor (incoming: seq<byte>)
      ensures input == incoming && output == []
    {
      input, output := incoming, [];
    }

    /** SendPacket put `payload` on the line, as often as the replies made it. */
    twostate predicate Sent(payload: seq<byte>, retries: nat)
      reads this
    {
      SentOn(old(input), old(output), input, output, payload, retries)
    }
  }

  /** From `input` and `output` SendPacket leads to `input'` and `output'`. */
  predicate SentOn(input: seq<byte>, output: seq<byte>, input': seq<byte>, output': seq<byte>,
                   payload: seq<byte>, retries: nat)
  {
    var o := Send(payload, retries, 0, input);
    && input' == input[o.repliesRead..]
    && output' == output + Frames(payload, o.transmissions)
  }

  // ----- sending

  function Frame(payload: seq<byte>): (f: seq<byte>)
  {
    [DOLLAR] + payload + [HASH] + HexByte(Sum(payload))
  }

  function Frames(payload: seq<byte>, n: nat): (f: seq<byte>)
  {
    if n == 0 then [] else Frames(payload, n - 1) + Frame(payload)
  }

  /** How one SendPacket call ends: `returned` is None while it waits for a reply. */
  datatype Sending = Sending(transmissions: nat, repliesRead: nat, returned: Option<nat>)

  function Send(payload: seq<byte>, retries: nat, count: nat, replies: seq<byte>): (o: Sending)
    ensures o.repliesRead <= |replies|
    decreases retries
  {
    if retries == 0 then Sending(0, 0, Some(count))
    else if replies == [] then Sending(1, 0, None)
    else if replies[0] == PLUS then Sending(1, 1, Some(|payload|))
    else Later(1, Send(payload, retries - 1, |payload|, replies[1..]))
  }

  method SendPacket(line: SerialLine, packetData: seq<byte>, retries: nat) returns (r: Option<nat>)
    modifies line
    ensures line.Sent(CString(packetData), retries)
    ensures r == Send(CString(packetData), retries, 0, old(line.input)).returned
  {
    ghost var payload := CString(packetData);
    ghost var input, output := line.input, line.output;
    ghost var n := 0;
    var timeout, count := retries, 0;
    assert Frames(payload, 0) == [];
    hide CString, Frame, Frames, Send;
    while true
      invariant n + |line.input| == |input| && IsSuffix(line.input, input)
      invariant line.output == output + Frames(payload, n)
      invariant Send(payload, retries, 0, input) == Later(n, Send(payload, timeout, count, line.input))
      decreases timeout
    {
      SendUnfolds(payload, timeout, count, n, line.input);
      if timeout == 0 {
        return Some(count);
      }
      timeout := timeout - 1;
      count := PutFrame(line, packetData);
      FramesAppend(output, payload, n);
      if line.input == [] {
        return None;
      }
      SuffixDrop(line.input, input, 1);
      var testChar := line.input[0];
      line.input := line.input[1..];
      n := n + 1;
      if testChar == PLUS {
        return Some(count);
      }
    }
  }

  function Later(n: nat, o: Sending): Sending
  {
    Sending(n + o.transmissions, n + o.repliesRead, o.returned)
  }

  lemma {:induction false} SendUnfolds(payload: seq<byte>, retries: nat, count: nat, n: nat, replies: seq<byte>)
    ensures Later(n, Send(payload, retries, count, replies)) ==
            if retries == 0 then Sending(n, n, Some(count))
            else if replies == [] then Sending(n + 1, n, None)
            else if replies[0] == PLUS then Sending(n + 1, n + 1, Some(|payload|))
            else Later(n + 1, Send(payload, retries - 1, |payload|, replies[1..]))
  {
  }

  /** One transmission: prefix, payload up to the NUL, '#', and the two checksum digits. */
  method PutFrame(line: SerialLine, packetData: seq<byte>) returns (count: nat)
    modifies line`output
    ensures count == |CString(packetData)|
    ensures line.output == old(line.output) + Frame(CString(packetData))
  {
    ghost var payload := CString(packetData);
    assert IsCString(packetData, payload);
    hide CString, Sum, Frame, IsCString;
    line.output := line.output + [DOLLAR];
    var checkSum;
    count, checkSum := PutPayload(line, packetData, payload);
    line.output := line.output + [HASH];
    line.output := line.output + [HexDigit(checkSum / 16)];
    line.output := line.output + [HexDigit(checkSum % 16)];
    FrameIsAppended(old(line.output), payload);
  }

  /** The payload up to the NUL, and its sum kept in 8 bits. */
  method PutPayload(line: SerialLine, packetData: seq<byte>, ghost payload: seq<byte>) returns (count: nat, checkSum: byte)
    requires IsCString(packetData, payload)
    modifies line`output
    ensures count == |payload| && checkSum == Sum(payload)
    ensures line.output == old(line.output) + payload
  {
    hide IsCString;
    ghost var before, done := line.output, payload[..0];
    count, checkSum := 0, 0;
    assert Sum(done) == 0 && before + done == before;
    hide Sum, Add8;
    while count < |packetData| && packetData[count] != NUL
      invariant count <= |payload| && done == payload[..count]
      invariant checkSum == Sum(done) && line.output == before + done
    {
      CStringWalk(packetData, payload, count);
      var ch := packetData[count];
      SumSnoc(done, ch);
      PrefixSnoc(payload, count);
      Assoc(before, done, [ch]);
      line.output := line.output + [ch];
      checkSum := Add8(checkSum, ch);
      count := count + 1;
      done := done + [ch];
    }
    CStringWalk(packetData, payload, count);
  }

  lemma {:induction false} FrameIsAppended(out: seq<byte>, payload: seq<byte>)
    ensures out + Frame(payload) ==
            out + [DOLLAR] + payload + [HASH] + [HexDigit(Sum(payload) / 16)] + [HexDigit(Sum(payload) % 16)]
  {
    hide Sum;
  }

  lemma {:induction false} FramesAppend(out: seq<byte>, payload: seq<byte>, n: nat)
    ensures out + Frames(payload, n) + Frame(payload) == out + Frames(payload, n + 1)
  {
    hide Frame;
  }

  /** Let `k` be the position of the first '+' among the replies, or their number. SendPacket
      transmits exactly k+1 times and reports the payload length when there is a '+' and k is
      below the retry count; with fewer than `retries` replies and no '+' it waits; otherwise it
      gives up, and what it returns then is again the payload length (`count` if it never tried). */
  lemma {:induction false} SendOutcomes(payload: seq<byte>, retries: nat, count: nat, replies: seq<byte>, k: nat)
    requires k <= |replies| && (forall i :: 0 <= i < k ==> replies[i] != PLUS)
    requires k < |replies| ==> replies[k] == PLUS
    ensures Send(payload, retries, count, replies) ==
              if k < retries && k < |replies| then Sending(k + 1, k + 1, Some(|payload|))
              else if k < retries then Sending(k + 1, k, None)
              else Sending(retries, retries, Some(if retries == 0 then count else |payload|))
    decreases retries
  {
    SendUnfolds(payload, retries, count, 0, replies);
    if retries > 0 && k > 0 {
      SendOutcomes(payload, retries - 1, |payload|, replies[1..], k - 1);
    }
  }

  // ----- receiving

  /** Where ReceivePacket stands between two bytes. The buffer holds what was stored so far. */
  datatype Rx =
    | Hunting                               // waiting for '$'
    | Data(buf: seq<byte>)                  // storing payload bytes
    | FirstDigit(buf: seq<byte>)            // about to read SumString[0]
    | SecondDigit(buf: seq<byte>, d: byte)  // about to read SumString[1]
    | Done(payload: seq<byte>)              // returned

  datatype Reception = Reception(rx: Rx, replies: seq<byte>, consumed: nat)

  /** The head of the inner loop: payload bytes are stored only below PacketDataSize - 1. */
  function Enter(size: nat, buf: seq<byte>): Rx
  {
    if |buf| + 1 < size then Data(buf) else FirstDigit(buf)
  }

  predicate ChecksumOk(payload: seq<byte>, d1: byte, d2: byte)
  {
    StrHexToUintn([d1, d2]) == Sum(payload)
  }

  function Next(size: nat, rx: Rx, b: byte): Rx
  {
    match rx
    case Hunting => if b == DOLLAR then Enter(size, []) else Hunting
    case Data(buf) =>
      if b == DOLLAR then Enter(size, [])
      else if b == HASH then FirstDigit(buf)
      else Enter(size, buf + [b])
    case FirstDigit(buf) => SecondDigit(buf, b)
    case SecondDigit(buf, d) => if ChecksumOk(buf, d, b) then Done(buf) else Hunting
    case Done(_) => rx
  }

  function Reply(rx: Rx, b: byte): seq<byte>
  {
    if rx.SecondDigit? then if ChecksumOk(rx.buf, rx.d, b) then [PLUS] else [MINUS] else []
  }

  /** Feed `s` to the receiver until it returns or the bytes run out. */
  function Receive(size: nat, rx: Rx, s: seq<byte>): (o: Reception)
    ensures o.consumed <= |s|
    ensures !o.rx.Done? ==> o.consumed == |s|
    decreases |s|
  {
    if rx.Done? || s == [] then Reception(rx, [], 0)
    else After(Reply(rx, s[0]), 1, Receive(size, Next(size, rx, s[0]), s[1..]))
  }

  function After(replies: seq<byte>, n: nat, o: Reception): Reception
  {
    Reception(o.rx, replies + o.replies, n + o.consumed)
  }

  lemma AfterAfter(r1: seq<byte>, n1: nat, r2: seq<byte>, n2: nat, o: Reception)
    ensures After(r1, n1, After(r2, n2, o)) == After(r1 + r2, n1 + n2, o)
    ensures After([], 0, o) == o
  {
  }

  lemma HuntUnfolds(size: nat, n: nat, s: seq<byte>)
    requires s != []
    ensures After([], n, Receive(size, Hunting, s)) ==
            After([], n + 1, Receive(size, if s[0] == DOLLAR then Enter(size, []) else Hunting, s[1..]))
  {
    AfterAfter([], n, [], 1, Receive(size, Next(size, Hunting, s[0]), s[1..]));
  }

  lemma StoreUnfolds(size: nat, n: nat, buf: seq<byte>, s: seq<byte>)
    requires s != [] && |buf| + 1 < size
    ensures After([], n, Receive(size, Enter(size, buf), s)) ==
            After([], n + 1, Receive(size, if s[0] == DOLLAR then Enter(size, [])
                                           else if s[0] == HASH then FirstDigit(buf)
                                           else Enter(size, buf + [s[0]]), s[1..]))
  {
    AfterAfter([], n, [], 1, Receive(size, Next(size, Data(buf), s[0]), s[1..]));
  }

  lemma NothingLeft(size: nat, n: nat, rx: Rx)
    ensures After([], n, Receive(size, rx, [])) == Reception(rx, [], n)
  {
  }

  /** Wait for the start of a packet: take the bytes up to and with the first '$', or all. */
  method WaitForStart(line: SerialLine, size: nat) returns (found: bool)
    modifies line`input
    ensures IsSuffix(line.input, old(line.input)) && (found ==> |line.input| < |old(line.input)|)
    ensures var n := |old(line.input)| - |line.input|;
            if found then old(line.input)[n - 1] == DOLLAR && DOLLAR !in old(line.input)[..n - 1]
            else line.input == [] && DOLLAR !in old(line.input)
    ensures Receive(size, Hunting, old(line.input)) ==
            After([], |old(line.input)| - |line.input|,
                  Receive(size, if found then Enter(size, []) else Hunting, line.input))
  {
    ghost var input, n := line.input, 0;
    found := false;
    AfterAfter([], 0, [], 0, Receive(size, Hunting, input));
    hide Receive, After;
    while !found
      invariant IsSuffix(line.input, input) && n == |input| - |line.input| && (found ==> n > 0)
      invariant if found then input[n - 1] == DOLLAR && DOLLAR !in input[..n - 1] else DOLLAR !in input[..n]
      invariant Receive(size, Hunting, input) ==
                After([], n, Receive(size, if found then Enter(size, []) else Hunting, line.input))
      decreases |line.input|
    {
      if line.input == [] {
        assert input[..n] == input;
        return;
      }
      HuntUnfolds(size, n, line.input);
      SuffixDrop(line.input, input, 1);
      PrefixSnoc(input, n);
      assert line.input[0] == input[n];
      found := line.input[0] == DOLLAR;
      line.input := line.input[1..];
      n := n + 1;
    }
  }

  /** Store payload bytes up to '#', a full buffer, or the end of the input; '$' starts over. */
  method StoreRun(line: SerialLine, packetData: array<byte>) returns (got: bool, index: nat, checkSum: byte)
    requires packetData.Length >= 1
    modifies line`input, packetData
    ensures index < packetData.Length && checkSum == Sum(packetData[..index])
    ensures IsSuffix(line.input, old(line.input))
    ensures var o := Receive(packetData.Length, Enter(packetData.Length, []), old(line.input));
            var n := |old(line.input)| - |line.input|;
            if got then o == After([], n, Receive(packetData.Length, FirstDigit(packetData[..index]), line.input))
            else !o.rx.Done? && o.replies == [] && line.input == []
  {
    ghost var input := line.input;
    var size := packetData.Length;
    index, checkSum := 0, 0;
    assert packetData[..0] == [] && Sum([]) == 0;
    AfterAfter([], 0, [], 0, Receive(size, Enter(size, []), input));
    hide Receive, Sum, After;
    while index < size - 1
      invariant index <= size - 1
      invariant checkSum == Sum(packetData[..index])
      invariant IsSuffix(line.input, input)
      invariant Receive(size, Enter(size, []), input) ==
                After([], |input| - |line.input|, Receive(size, Enter(size, packetData[..index]), line.input))
      decreases |line.input|
    {
      if line.input == [] {
        NothingLeft(size, |input|, Enter(size, packetData[..index]));
        return false, index, checkSum;
      }
      StoreUnfolds(size, |input| - |line.input|, packetData[..index], line.input);
      SuffixDrop(line.input, input, 1);
      var ch := line.input[0];
      line.input := line.input[1..];
      if ch == DOLLAR {
        index, checkSum := 0, 0;
        assert packetData[..0] == [];
        continue;
      }
      if ch == HASH {
        break;
      }
      checkSum := StoreByte(packetData, index, checkSum, ch);
      index := index + 1;
    }
    got := true;
  }

  method StoreByte(packetData: array<byte>, index: nat, checkSum: byte, ch: byte) returns (checkSum': byte)
    requires index < packetData.Length && checkSum == Sum(packetData[..index])
    modifies packetData
    ensures packetData[..index + 1] == old(packetData[..index]) + [ch]
    ensures checkSum' == Sum(packetData[..index + 1])
  {
    ghost var before := packetData[..index];
    packetData[index] := ch;
    SumSnoc(before, ch);
    hide Sum;
    assert packetData[..index + 1] == before + [ch];
    checkSum' := Add8(checkSum, ch);
  }

  datatype Attempted = Blocked | Rejected | Accepted(index: nat)

  /** One trip through the body of the outer loop, from waiting for '$' to the reply. */
  method OneAttempt(line: SerialLine, packetData: array<byte>) returns (r: Attempted)
    requires packetData.Length >= 1
    modifies line, packetData
    ensures IsSuffix(line.input, old(line.input)) && (r.Rejected? ==> |line.input| < |old(line.input)|)
    ensures var o := Receive(packetData.Length, Hunting, old(line.input));
            var n := |old(line.input)| - |line.input|;
            match r
            case Blocked => !o.rx.Done? && o.replies == [] && line.input == [] && line.output == old(line.output)
            case Rejected =>
              && line.output == old(line.output) + [MINUS]
              && o == After([MINUS], n, Receive(packetData.Length, Hunting, line.input))
            case Accepted(index) =>
              && line.output == old(line.output) + [PLUS]
              && index < packetData.Length && packetData[index] == NUL
              && o == Reception(Done(packetData[..index]), [PLUS], n)
  {
    hide Receive, Sum, StrHexToUintn;
    ghost var size, input := packetData.Length, line.input;
    var started := WaitForStart(line, packetData.Length);
    if !started {
      NothingLeft(size, |input|, Hunting);
      return Blocked;
    }
    ghost var input1, n1 := line.input, |input| - |line.input|;
    var got, index, checkSum := StoreRun(line, packetData);
    SuffixOf(line.input, input1, input);
    if !got {
      return Blocked;
    }
    ghost var payload, n2 := packetData[..index], |input| - |line.input|;
    ghost var rest := Receive(size, FirstDigit(payload), line.input);
    AfterAfter([], n1, [], n2 - n1, rest);
    assert Receive(size, Hunting, input) == After([], n2, rest);
    packetData[index] := NUL;
    assert packetData[..index] == payload;
    if |line.input| < 2 {
      DigitsMissing(size, payload, line.input);
      line.input := [];
      return Blocked;
    }
    var d1, d2 := line.input[0], line.input[1];
    DigitsRead(size, payload, line.input);
    SuffixDrop(line.input, input, 2);
    line.input := line.input[2..];
    AfterAfter([], n2, [MINUS], 2, Receive(size, Hunting, line.input));
    if StrHexToUintn([d1, d2]) == checkSum {
      line.output := line.output + [PLUS];
      return Accepted(index);
    } else {
      line.output := line.output + [MINUS];
      return Rejected;
    }
  }

  /** ReceivePacket, byte for byte; None means it is still waiting for input. */
  method ReceivePacket(line: SerialLine, packetData: array<byte>) returns (r: Option<nat>)
    requires packetData.Length >= 1
    modifies line, packetData
    ensures var o := Receive(packetData.Length, Hunting, old(line.input));
            && line.input == old(line.input)[o.consumed..]
            && line.output == old(line.output) + o.replies
            && (r.Some? <==> o.rx.Done?)
            && (r.Some? ==> r.value == |o.rx.payload| < packetData.Length
                            && packetData[..r.value] == o.rx.payload
                            && packetData[r.value] == NUL)
  {
    hide Receive;
    var size := packetData.Length;
    ghost var input, output := line.input, line.output;
    ClearBuffer(packetData);
    ghost var out: seq<byte> := [];
    while true
      invariant IsSuffix(line.input, input)
      invariant line.output == output + out
      invariant Receive(size, Hunting, input) == After(out, |input| - |line.input|, Receive(size, Hunting, line.input))
      decreases |line.input|
    {
      ghost var input', n := line.input, |input| - |line.input|;
      var attempt := OneAttempt(line, packetData);
      SuffixOf(line.input, input', input);
      if attempt.Blocked? {
        Assoc(output, out, []);
        return None;
      }
      if attempt.Accepted? {
        Assoc(output, out, [PLUS]);
        return Some(attempt.index);
      }
      AfterAfter(out, n, [MINUS], |input| - |line.input| - n, Receive(size, Hunting, line.input));
      Assoc(output, out, [MINUS]);
      out := out + [MINUS];
    }
  }

  /** SetMem. */
  method ClearBuffer(packetData: array<byte>)
    modifies packetData
    ensures forall i :: 0 <= i < packetData.Length ==> packetData[i] == NUL
  {
    forall i | 0 <= i < packetData.Length {
      packetData[i] := NUL;
    }
  }

  lemma DigitsMissing(size: nat, payload: seq<byte>, s: seq<byte>)
    requires |s| < 2
    ensures var o := Receive(size, FirstDigit(payload), s); !o.rx.Done? && o.replies == []
  {
    if |s| == 1 {
      assert s[1..] == [];
    }
  }

  lemma DigitsRead(size: nat, payload: seq<byte>, s: seq<byte>)
    requires |s| >= 2
    ensures Receive(size, FirstDigit(payload), s) ==
            if ChecksumOk(payload, s[0], s[1]) then Reception(Done(payload), [PLUS], 2)
            else After([MINUS], 2, Receive(size, Hunting, s[2..]))
  {
    var o := Receive(size, SecondDigit(payload, s[0]), s[1..]);
    assert Receive(size, FirstDigit(payload), s) == After([], 1, o);
    assert s[1..][1..] == s[2..];
    AfterAfter([], 1, Reply(SecondDigit(payload, s[0]), s[1]), 1,
               Receive(size, Next(size, SecondDigit(payload, s[0]), s[1]), s[2..]));
    AfterAfter([], 0, [], 0, Reception(Done(payload), [PLUS], 2));
  }
}
