/** File-I/O over the GDB line: GdbRead, the F reply, and the periodic callback that shares the
    serial line with it. GdbRead runs as a machine of single serial operations, so that the
    callback can come between any two of them. */
module GdbFileIo {
  import opened Basics
  import opened GdbBytes
  import opened GdbNumbers
  import opened GdbPacket
  import opened GdbMemory
  import GdbGrammar

  const PACKET_SIZE: nat := 128
  const LETTER_C: byte := 0x43
  const LETTER_F: byte := 0x46
  const LETTER_M: byte := 0x4D

  // ----- the F reply

  /** Return code, error number and Ctrl-C flag of "Fretcode[,errno[,C]]". */
  datatype FReply = NotF | FReply(retCode: int, errNo: nat, ctrlC: bool)

  /** A UINTN stored in an INTN. */
  function ToIntn(u: nat): int
  {
    if u > 0x7FFF_FFFF_FFFF_FFFF then u - 0x1_0000_0000_0000_0000 else u
  }

  function ParseFReply(packet: seq<byte>): (r: FReply)
  {
    if packet == [] || packet[0] != LETTER_F then NotF
    else
      var ret := ToIntn(StrHexToUintn(packet[1..]));
      var i := IndexOf(packet, COMMA);
      if i == |packet| then FReply(ret, 0, false)
      else
        var rest := packet[i + 1..];
        var err := StrHexToUintn(rest);
        var j := IndexOf(rest, COMMA);
        if j == |rest| then FReply(ret, err, false)
        else FReply(ret, err, j + 1 < |rest| && rest[j + 1] == LETTER_C)
  }

  /** GdbParseFReplyPacket: a position that advances from comma to comma. */
  method GdbParseFReplyPacket(packet: seq<byte>, errNo: nat, flag: bool) returns (retCode: int, errNo': nat, flag': bool)
    ensures match ParseFReply(packet)
            case NotF => retCode == -1 && errNo' == errNo && flag' == flag
            case FReply(ret, err, c) => retCode == ret && errNo' == err && flag' == (flag || c)
  {
    errNo', flag' := errNo, flag;
    if packet == [] || packet[0] != LETTER_F {
      return -1, errNo, flag;
    }
    retCode := ToIntn(StrHexToUintn(packet[1..]));
    var at := Find(packet, COMMA);
    if at == |packet| {
      errNo' := 0;
      return;
    }
    var rest := packet[at + 1..];
    errNo' := StrHexToUintn(rest);
    at := Find(rest, COMMA);
    if at == |rest| {
      return;
    }
    if at + 1 < |rest| && rest[at + 1] == LETTER_C {
      flag' := true;
    }
  }

  lemma {:induction false} DigitsStopAtComma(acc: nat, a: seq<byte>, b: seq<byte>)
    requires COMMA !in a && acc <= MAX_UINTN
    ensures DigitsValue(acc, a + [COMMA] + b) == DigitsValue(acc, a)
    decreases |a|
  {
    var t := a + [COMMA] + b;
    if a != [] && HexCharToInt(a[0]) >= 0 {
      assert t[1..] == a[1..] + [COMMA] + b;
      var d := HexCharToInt(a[0]);
      if acc <= (MAX_UINTN - d) / 16 {
        DigitsStopAtComma(acc * 16 + d, a[1..], b);
      }
    }
  }

  lemma {:induction false} SkipStopsAtComma(a: seq<byte>, b: seq<byte>)
    requires COMMA !in a
    ensures SkipBlanks(a + [COMMA] + b) == SkipBlanks(a) + [COMMA] + b && COMMA !in SkipBlanks(a)
    ensures SkipZeros(a + [COMMA] + b) == SkipZeros(a) + [COMMA] + b && COMMA !in SkipZeros(a)
  {
    if a != [] {
      assert (a + [COMMA] + b)[1..] == a[1..] + [COMMA] + b;
      SkipStopsAtComma(a[1..], b);
    }
  }

  /** A number ends at its comma. */
  lemma {:induction false} NumberStopsAtComma(a: seq<byte>, b: seq<byte>)
    requires COMMA !in a
    ensures StrHexToUintn(a + [COMMA] + b) == StrHexToUintn(a)
  {
    SkipStopsAtComma(a, b);
    var t := SkipBlanks(a);
    SkipStopsAtComma(t, b);
    var u := SkipZeros(t);
    if u != [] {
      assert (u + [COMMA] + b)[1..] == u[1..] + [COMMA] + b;
      DigitsStopAtComma(0, u[1..], b);
    }
    DigitsStopAtComma(0, u, b);
  }

  /** The three fields of a full F reply are read as three fields: each number is that of its own
      field, and the Ctrl-C flag is set exactly when the third field begins with 'C'. */
  lemma {:induction false} FReplyFields(ret: seq<byte>, err: seq<byte>, third: seq<byte>)
    requires COMMA !in ret && COMMA !in err
    ensures ParseFReply([LETTER_F] + ret + [COMMA] + err + [COMMA] + third) ==
            FReply(ToIntn(StrHexToUintn(ret)), StrHexToUintn(err), [LETTER_C] <= third)
  {
    hide StrHexToUintn;
    var rest := err + [COMMA] + third;
    var packet := [LETTER_F] + ret + [COMMA] + err + [COMMA] + third;
    assert packet == [LETTER_F] + ret + [COMMA] + rest;
    IndexOfIsFirst([LETTER_F] + ret, COMMA, rest);
    assert packet[1..] == ret + [COMMA] + rest && packet[|ret| + 2..] == rest;
    NumberStopsAtComma(ret, rest);
    NumberStopsAtComma(err, third);
    IndexOfIsFirst(err, COMMA, third);
  }

  /** A reply with one field: its number, no error, no break. */
  lemma {:induction false} FReplyOneField(ret: seq<byte>)
    requires COMMA !in ret
    ensures ParseFReply([LETTER_F] + ret) == FReply(ToIntn(StrHexToUintn(ret)), 0, false)
  {
    hide StrHexToUintn;
    var packet := [LETTER_F] + ret;
    IndexOfMissing(packet, COMMA);
    assert packet[1..] == ret;
  }

  /** A reply with two fields: code and error number, no break. */
  lemma {:induction false} FReplyTwoFields(ret: seq<byte>, err: seq<byte>)
    requires COMMA !in ret && COMMA !in err
    ensures ParseFReply([LETTER_F] + ret + [COMMA] + err) ==
            FReply(ToIntn(StrHexToUintn(ret)), StrHexToUintn(err), false)
  {
    hide StrHexToUintn;
    var packet := [LETTER_F] + ret + [COMMA] + err;
    IndexOfIsFirst([LETTER_F] + ret, COMMA, err);
    assert packet[1..] == ret + [COMMA] + err && packet[|ret| + 2..] == err;
    NumberStopsAtComma(ret, err);
    IndexOfMissing(err, COMMA);
  }

  /** An INTN holds the value of a UINTN modulo 2^64, as a number of its own range. */
  lemma {:induction false} ToIntnIsSigned(u: nat)
    requires u <= MAX_UINTN
    ensures -0x8000_0000_0000_0000 <= ToIntn(u) <= 0x7FFF_FFFF_FFFF_FFFF
    ensures ToIntn(u) == u || ToIntn(u) == u - 0x1_0000_0000_0000_0000
  {
  }

  /** Numbers written in hexadecimal come back as these numbers, in one, two or three fields. */
  lemma {:induction false} FReplyNumbers(ret: seq<byte>, r: nat, err: seq<byte>, e: nat, third: seq<byte>)
    requires IsHex(ret, r) && IsHex(err, e) && r <= 0x7FFF_FFFF_FFFF_FFFF && e <= MAX_UINTN
    ensures ParseFReply([LETTER_F] + ret) == FReply(r, 0, false)
    ensures ParseFReply([LETTER_F] + ret + [COMMA] + err) == FReply(r, e, false)
    ensures ParseFReply([LETTER_F] + ret + [COMMA] + err + [COMMA] + third) == FReply(r, e, [LETTER_C] <= third)
  {
    hide StrHexToUintn, ParseFReply, IsHex;
    HexIsPlain(ret, r);
    HexIsPlain(err, e);
    HexIsRead(ret, r, []);
    HexIsRead(err, e, []);
    assert ret + [] == ret && err + [] == err;
    FReplyOneField(ret);
    FReplyTwoFields(ret, err);
    FReplyFields(ret, err, third);
  }

  /** The code of a failed call is written -1; its sign ends the number, and the code is 0. */
  lemma {:induction false} NegativeCodeIsLost(code: seq<byte>, err: seq<byte>)
    requires COMMA !in code && COMMA !in err
    ensures ParseFReply([LETTER_F] + ([MINUS] + code) + [COMMA] + err) == FReply(0, StrHexToUintn(err), false)
  {
    hide StrHexToUintn, ParseFReply;
    NoNumberIsZero([], [MINUS] + code);
    assert [] + ([MINUS] + code) == [MINUS] + code;
    FReplyTwoFields([MINUS] + code, err);
    ToIntnIsSigned(0);
  }

  // ----- GdbRead as a machine

  /** What follows a SendPacket inside GdbRead. */
  datatype Sequel = ThenReceive | ThenReturn(retCode: int)

  datatype Pc =
    | Idle                                                                // no exchange
    | Put(todo: seq<byte>, payload: seq<byte>, left: nat, after: Sequel)   // GdbPutChar of a frame
    | Ack(payload: seq<byte>, left: nat, after: Sequel)                    // GdbGetChar of the reply
    | Recv(rx: Rx)                                                        // GdbGetChar in ReceivePacket
    | Got(packet: seq<byte>)                                              // switch (Packet[0])
    | Finish(retCode: int)                                                // gProcessingFPacket = FALSE
    | Overran                                                             // a memory packet ran off its buffer

  /** What happened, in order. */
  datatype Log =
    | Took(b: byte)                                                       // GdbRead read a byte
    | Break                                                               // an F reply set the flag
    | Tick(idle: bool, seen: seq<byte>, consumed: seq<byte>, stepped: bool) // one callback

  /** The shared globals, the line, memory, results, and the history. */
  datatype State = State(pc: Pc, processing: bool, ctrlC: bool, pending: seq<byte>, output: seq<byte>,
                         mem: Memory, results: seq<int>, log: seq<Log>)

  /** The world: a byte arrives, GdbRead is called with its request packet, GdbRead takes its
      next step, the timer fires. */
  datatype Event = Arrive(b: byte) | Start(request: seq<byte>) | Step | Timer

  function StartSend(s: State, payload: seq<byte>, left: nat, after: Sequel): State
  {
    if left == 0 then s.(pc := Proceed(after)) else s.(pc := Put(Frame(payload), payload, left - 1, after))
  }

  function Proceed(after: Sequel): Pc
  {
    match after
    case ThenReceive => Recv(Hunting)
    case ThenReturn(ret) => Finish(ret)
  }

  function Dispatch(s: State, packet: seq<byte>, retries: nat): State
  {
    var text := CString(packet);
    if text != [] && text[0] == LETTER_M then
      var e := WriteCommand(s.mem, text);
      if e.Overrun? then s.(pc := Overran)
      else StartSend(s.(mem := e.mem), e.payload, retries, ThenReceive)
    else
      match ParseFReply(text)
      case NotF => StartSend(s, [], retries, ThenReceive)
      case FReply(ret, err, c) =>
        var s' := if c then s.(ctrlC := true, log := s.log + [Break]) else s;
        if err > 0 then StartSend(s', ErrorPacket(err % 256), retries, ThenReturn(ret))
        else s'.(pc := Finish(ret))
  }

  /** One step of GdbRead; where it needs a byte and none is pending it stays. */
  function ReadStep(s: State, retries: nat): State
  {
    match s.pc
    case Idle => s
    case Overran => s
    case Put(todo, payload, left, after) =>
      if todo == [] then s.(pc := Ack(payload, left, after))
      else s.(pc := Put(todo[1..], payload, left, after), output := s.output + [todo[0]])
    case Ack(payload, left, after) =>
      if s.pending == [] then s
      else
        var b := s.pending[0];
        var s' := s.(pending := s.pending[1..], log := s.log + [Took(b)]);
        if b == PLUS then s'.(pc := Proceed(after)) else StartSend(s', payload, left, after)
    case Recv(rx) =>
      if s.pending == [] then s
      else
        var b := s.pending[0];
        var rx' := Next(PACKET_SIZE, rx, b);
        s.(pending := s.pending[1..], log := s.log + [Took(b)], output := s.output + Reply(rx, b),
           pc := if rx'.Done? then Got(rx'.payload) else Recv(rx'))
    case Got(packet) => Dispatch(s, packet, retries)
    case Finish(ret) => s.(pc := Idle, processing := false, results := s.results + [ret])
  }

  /** The pending bytes a callback that looks at the line reads: up to and with a Ctrl-C. */
  function Scanned(pending: seq<byte>): (n: nat)
    ensures n <= |pending|
  {
    var k := IndexOf(pending, CTRL_C);
    if k < |pending| then k + 1 else k
  }

  /** GdbPeriodicCallBack, which runs to its end between two steps of GdbRead. */
  function Callback(s: State): State
  {
    var look := !s.ctrlC && !s.processing;
    var n := if look then Scanned(s.pending) else 0;
    var found := look && CTRL_C in s.pending;
    var step := s.ctrlC || found;
    s.(ctrlC := false, pending := s.pending[n..],
       log := s.log + [Tick(s.pc.Idle?, s.pending, s.pending[..n], step)])
  }

  function Apply(s: State, e: Event, retries: nat): State
  {
    match e
    case Arrive(b) => s.(pending := s.pending + [b])
    case Start(request) =>
      if s.pc.Idle? then StartSend(s.(processing := true), CString(request), retries, ThenReceive) else s
    case Step => ReadStep(s, retries)
    case Timer => Callback(s)
  }

  function Run(s: State, events: seq<Event>, retries: nat): (s': State)
    decreases |events|
  {
    if events == [] then s
    else Apply(Run(s, events[..|events| - 1], retries), events[|events| - 1], retries)
  }

  function Init(mem: Memory): State
  {
    State(Idle, false, false, [], [], mem, [], [])
  }

  // ----- what every run keeps

  /** An F reply has set the flag since the last callback. */
  predicate BreakPending(log: seq<Log>)
  {
    log != [] && (match log[|log| - 1]
                  case Break => true
                  case Tick(_, _, _, _) => false
                  case Took(_) => BreakPending(log[..|log| - 1]))
  }

  /** What a callback must do: nothing to the line while an exchange is in progress or a break is
      pending; a single step exactly when a break is pending or, with no exchange in progress, a
      Ctrl-C is among the bytes waiting. */
  function RightTick(before: seq<Log>, idle: bool, seen: seq<byte>): Log
  {
    var waiting := BreakPending(before);
    Tick(idle, seen, if idle && !waiting then seen[..Scanned(seen)] else [], waiting || (idle && CTRL_C in seen))
  }

  predicate RightLog(log: seq<Log>)
  {
    forall i :: 0 <= i < |log| && log[i].Tick? ==> log[i] == RightTick(log[..i], log[i].idle, log[i].seen)
  }

  /** The bytes taken off the line, by GdbRead and by callbacks, in order. */
  function Taken(log: seq<Log>): seq<byte>
  {
    if log == [] then []
    else Taken(log[..|log| - 1]) + match log[|log| - 1]
                                   case Took(b) => [b]
                                   case Break => []
                                   case Tick(_, _, consumed, _) => consumed
  }

  function Arrived(events: seq<Event>): seq<byte>
  {
    if events == [] then []
    else Arrived(events[..|events| - 1]) + match events[|events| - 1]
                                           case Arrive(b) => [b]
                                           case _ => []
  }

  ghost predicate Inv(s: State)
  {
    && (s.processing <==> !s.pc.Idle?)
    && (s.ctrlC <==> BreakPending(s.log))
    && RightLog(s.log)
  }

  lemma {:induction false} LogSnoc(log: seq<Log>, x: Log)
    requires RightLog(log)
    requires x.Tick? ==> x == RightTick(log, x.idle, x.seen)
    ensures RightLog(log + [x])
    ensures BreakPending(log + [x]) == (x.Break? || (x.Took? && BreakPending(log)))
    ensures Taken(log + [x]) == Taken(log) + (match x case Took(b) => [b] case Break => [] case Tick(_, _, c, _) => c)
  {
    var log' := log + [x];
    assert log'[..|log|] == log;
    forall i | 0 <= i < |log'| && log'[i].Tick?
      ensures log'[i] == RightTick(log'[..i], log'[i].idle, log'[i].seen)
    {
      if i < |log| {
        assert log'[..i] == log[..i];
      }
    }
  }

  lemma {:induction false} SendKeeps(s: State, payload: seq<byte>, left: nat, after: Sequel)
    ensures var t := StartSend(s, payload, left, after);
            t == s.(pc := t.pc) && !t.pc.Idle?
  {
    hide Frame;
  }

  /** A step of GdbRead keeps the flag protocol and takes at most the first pending byte. */
  lemma {:induction false} ReadStepKeeps(s: State, retries: nat)
    requires Inv(s)
    ensures var t := ReadStep(s, retries);
            Inv(t) && Taken(t.log) + t.pending == Taken(s.log) + s.pending
  {
    hide Frame, WriteCommand, ParseFReply, Next, Reply, RightLog, BreakPending, Taken, StartSend;
    match s.pc
    case Ack(payload, left, after) =>
      if s.pending != [] {
        LogSnoc(s.log, Took(s.pending[0]));
        TakeFirst(Taken(s.log), s.pending);
        var s' := s.(pending := s.pending[1..], log := s.log + [Took(s.pending[0])]);
        SendKeeps(s', payload, left, after);
      }
    case Recv(rx) =>
      if s.pending != [] {
        LogSnoc(s.log, Took(s.pending[0]));
        TakeFirst(Taken(s.log), s.pending);
      }
    case Got(packet) => DispatchKeeps(s, packet, retries);
    case _ =>
  }

  lemma TakeFirst(taken: seq<byte>, pending: seq<byte>)
    requires pending != []
    ensures (taken + [pending[0]]) + pending[1..] == taken + pending
  {
  }

  lemma {:induction false} DispatchKeeps(s: State, packet: seq<byte>, retries: nat)
    requires Inv(s) && s.pc.Got?
    ensures var t := Dispatch(s, packet, retries);
            Inv(t) && Taken(t.log) + t.pending == Taken(s.log) + s.pending
  {
    hide Frame, WriteCommand, ParseFReply, RightLog, BreakPending, Taken, StartSend;
    LogSnoc(s.log, Break);
    assert Taken(s.log) + [] == Taken(s.log);
    var text := CString(packet);
    var f := ParseFReply(text);
    if text != [] && text[0] == LETTER_M {
      var e := WriteCommand(s.mem, text);
      if e.Answer? {
        SendKeeps(s.(mem := e.mem), e.payload, retries, ThenReceive);
      }
    } else if f.NotF? {
      SendKeeps(s, [], retries, ThenReceive);
    } else if f.errNo > 0 {
      var s' := if f.ctrlC then s.(ctrlC := true, log := s.log + [Break]) else s;
      SendKeeps(s', ErrorPacket(f.errNo % 256), retries, ThenReturn(f.retCode));
    }
  }

  lemma {:induction false} CallbackKeeps(s: State)
    requires Inv(s)
    ensures var t := Callback(s);
            Inv(t) && Taken(t.log) + t.pending == Taken(s.log) + s.pending
  {
    hide RightLog, BreakPending, Taken, Scanned;
    var t := Callback(s);
    var tick := t.log[|s.log|];
    LogSnoc(s.log, tick);
    TakePrefix(Taken(s.log), s.pending, |tick.consumed|);
  }

  lemma TakePrefix(taken: seq<byte>, pending: seq<byte>, n: nat)
    requires n <= |pending|
    ensures (taken + pending[..n]) + pending[n..] == taken + pending
  {
  }

  /** Safety over every run: however bytes arrive and the timer fires between the steps of any
      number of GdbRead calls, every callback in the history did the right thing, and every byte
      that arrived was taken exactly once, in order, or is still pending. */
  lemma {:induction false} EveryRunIsRight(mem: Memory, events: seq<Event>, retries: nat)
    ensures var s := Run(Init(mem), events, retries);
            Inv(s) && Taken(s.log) + s.pending == Arrived(events)
    decreases |events|
  {
    if events == [] {
      assert Taken([]) + [] == [];
    } else {
      hide Inv, Taken, ReadStep, Callback;
      var front, e := events[..|events| - 1], events[|events| - 1];
      EveryRunIsRight(mem, front, retries);
      EventKeeps(Run(Init(mem), front, retries), e, retries);
    }
  }

  lemma {:induction false} EventKeeps(s: State, e: Event, retries: nat)
    requires Inv(s)
    ensures var t := Apply(s, e, retries);
            Inv(t) && Taken(t.log) + t.pending ==
                      Taken(s.log) + s.pending + match e case Arrive(b) => [b] case _ => []
  {
    hide RightLog, BreakPending, Taken, ReadStep, Callback, StartSend, Frame;
    match e
    case Arrive(b) =>
    case Start(request) => SendKeeps(s.(processing := true), CString(request), retries, ThenReceive);
    case Step => ReadStepKeeps(s, retries);
    case Timer => CallbackKeeps(s);
  }

  // ----- what the history says

  lemma {:induction false} PendingUntilTick(log: seq<Log>, i: nat, j: nat)
    requires i < j <= |log| && (forall k :: i < k < j ==> !log[k].Tick?)
    ensures log[i].Break? ==> BreakPending(log[..j])
    ensures log[i].Tick? && (forall k :: i < k < j ==> log[k].Took?) ==> !BreakPending(log[..j])
    decreases j
  {
    assert log[..j][..j - 1] == log[..j - 1];
    if i < j - 1 {
      PendingUntilTick(log, i, j - 1);
    }
  }

  /** A Ctrl-C in an F reply is served by exactly one AddSingleStep, at the next callback: that
      callback steps and reads nothing, and the one after it, with no further break between them,
      steps only for a reason of its own. */
  lemma {:induction false} BreakIsServedOnce(mem: Memory, events: seq<Event>, retries: nat, i: nat, j: nat)
    requires var log := Run(Init(mem), events, retries).log;
             i < j < |log| && log[i].Break? && log[j].Tick? && (forall m :: i < m < j ==> !log[m].Tick?)
    ensures var log := Run(Init(mem), events, retries).log;
            log[j].stepped && log[j].consumed == []
    ensures var log := Run(Init(mem), events, retries).log;
            forall k :: j < k < |log| && log[k].Tick? && (forall m :: j < m < k ==> log[m].Took?) ==>
                          (log[k].stepped <==> log[k].idle && CTRL_C in log[k].seen)
  {
    hide Run, BreakPending;
    var log := Run(Init(mem), events, retries).log;
    EveryRunIsRight(mem, events, retries);
    PendingUntilTick(log, i, j);
    forall k | j < k < |log| && log[k].Tick? && (forall m :: j < m < k ==> log[m].Took?)
      ensures log[k].stepped <==> log[k].idle && CTRL_C in log[k].seen
    {
      PendingUntilTick(log, j, k);
    }
  }

  /** A callback outside an exchange, with no break waiting, takes the bytes up to and with the first
      Ctrl-C and steps, or takes all of them and does not. */
  lemma {:induction false} IdleCallbackScans(mem: Memory, events: seq<Event>, retries: nat, i: nat)
    requires var log := Run(Init(mem), events, retries).log;
             i < |log| && log[i].Tick? && log[i].idle && !BreakPending(log[..i])
    ensures var t := Run(Init(mem), events, retries).log[i];
            && (CTRL_C !in t.seen ==> t.consumed == t.seen && !t.stepped)
            && (CTRL_C in t.seen ==>
                  t.stepped && t.consumed != [] && t.consumed[|t.consumed| - 1] == CTRL_C
                  && CTRL_C !in t.consumed[..|t.consumed| - 1] && t.consumed <= t.seen)
  {
    hide Run, BreakPending;
    EveryRunIsRight(mem, events, retries);
    var t := Run(Init(mem), events, retries).log[i];
    var k := IndexOf(t.seen, CTRL_C);
    if CTRL_C in t.seen {
      assert t.seen[..|t.seen|] == t.seen;
      assert t.seen[..k + 1][..k] == t.seen[..k];
    } else {
      IndexOfMissing(t.seen, CTRL_C);
    }
  }

  /** A callback takes no byte while an exchange is in progress. */
  lemma {:induction false} NoByteIsStolen(mem: Memory, events: seq<Event>, retries: nat, i: nat)
    requires var log := Run(Init(mem), events, retries).log;
             i < |log| && log[i].Tick? && !log[i].idle
    ensures Run(Init(mem), events, retries).log[i].consumed == []
  {
    hide Run;
    EveryRunIsRight(mem, events, retries);
  }

  // ----- an exchange does not notice the callbacks

  /** Everything but the break flag and the history. */
  function Core(s: State): State
  {
    s.(ctrlC := false, log := [])
  }

  lemma {:induction false} SendIsCore(s: State, t: State, payload: seq<byte>, left: nat, after: Sequel)
    requires Core(s) == Core(t)
    ensures Core(StartSend(s, payload, left, after)) == Core(StartSend(t, payload, left, after))
  {
    hide Frame;
  }

  lemma {:induction false} DispatchIsCore(s: State, t: State, packet: seq<byte>, retries: nat)
    requires Core(s) == Core(t)
    ensures Core(Dispatch(s, packet, retries)) == Core(Dispatch(t, packet, retries))
  {
    hide WriteCommand, ParseFReply, StartSend;
    var text := CString(packet);
    var f := ParseFReply(text);
    if text != [] && text[0] == LETTER_M {
      var e := WriteCommand(s.mem, text);
      if e.Answer? {
        SendIsCore(s.(mem := e.mem), t.(mem := e.mem), e.payload, retries, ThenReceive);
      }
    } else if f.NotF? {
      SendIsCore(s, t, [], retries, ThenReceive);
    } else if f.errNo > 0 {
      var s' := if f.ctrlC then s.(ctrlC := true, log := s.log + [Break]) else s;
      var t' := if f.ctrlC then t.(ctrlC := true, log := t.log + [Break]) else t;
      SendIsCore(s', t', ErrorPacket(f.errNo % 256), retries, ThenReturn(f.retCode));
    }
  }

  lemma {:induction false} StepIsCore(s: State, t: State, retries: nat)
    requires Core(s) == Core(t)
    ensures Core(ReadStep(s, retries)) == Core(ReadStep(t, retries))
  {
    hide Next, Reply, StartSend, Dispatch;
    match s.pc
    case Ack(payload, left, after) =>
      if s.pending != [] {
        var b, rest := s.pending[0], s.pending[1..];
        SendIsCore(s.(pending := rest, log := s.log + [Took(b)]), t.(pending := rest, log := t.log + [Took(b)]),
                   payload, left, after);
      }
    case Got(packet) => DispatchIsCore(s, t, packet, retries);
    case _ =>
  }

  /** GdbRead never looks at the break flag. */
  lemma {:induction false} CoreIsEnough(s: State, t: State, e: Event, retries: nat)
    requires Core(s) == Core(t) && !e.Timer?
    ensures Core(Apply(s, e, retries)) == Core(Apply(t, e, retries))
  {
    hide StartSend, ReadStep;
    match e
    case Arrive(b) =>
    case Start(request) =>
      SendIsCore(s.(processing := true), t.(processing := true), CString(request), retries, ThenReceive);
    case Step => StepIsCore(s, t, retries);
  }

  lemma {:induction false} BusyCallback(s: State, retries: nat)
    requires s.processing
    ensures Core(Apply(s, Timer, retries)) == Core(s)
  {
    assert s.pending[0..] == s.pending;
  }

  function WithoutTimers(events: seq<Event>): seq<Event>
  {
    if events == [] then []
    else
      var front, e := WithoutTimers(events[..|events| - 1]), events[|events| - 1];
      if e.Timer? then front else front + [e]
  }

  /** From the start of an exchange to its end, any interleaving with callbacks gives the same
      bytes read and written, memory, results and progress as the run with no callback at all. */
  lemma {:induction false} ExchangeIgnoresCallbacks(s: State, events: seq<Event>, retries: nat)
    requires forall i :: 0 <= i < |events| ==> Run(s, events[..i], retries).processing
    ensures Core(Run(s, events, retries)) == Core(Run(s, WithoutTimers(events), retries))
    decreases |events|
  {
    hide Run, Apply;
    if events == [] {
    } else {
      var n := |events| - 1;
      var front, e := events[..n], events[n];
      forall i | 0 <= i < n
        ensures Run(s, front[..i], retries).processing
      {
        assert front[..i] == events[..i];
      }
      ExchangeIgnoresCallbacks(s, front, retries);
      var u, v := Run(s, front, retries), Run(s, WithoutTimers(front), retries);
      assert events == front + [e];
      RunSnoc(s, front, e, retries);
      RunSnoc(s, WithoutTimers(front), e, retries);
      if e.Timer? {
        assert u.processing;
        BusyCallback(u, retries);
      } else {
        CoreIsEnough(u, v, e, retries);
      }
    }
  }

  lemma {:induction false} RunSnoc(s: State, events: seq<Event>, e: Event, retries: nat)
    ensures Run(s, events + [e], retries) == Apply(Run(s, events, retries), e, retries)
  {
    hide Apply;
    assert (events + [e])[..|events|] == events;
  }

  // ----- a whole exchange

  function Steps(s: State, n: nat, retries: nat): State
    decreases n
  {
    if n == 0 then s else Steps(ReadStep(s, retries), n - 1, retries)
  }

  lemma {:induction false} StepsAppend(s: State, a: nat, b: nat, retries: nat)
    ensures Steps(s, a + b, retries) == Steps(Steps(s, a, retries), b, retries)
    decreases a
  {
    hide ReadStep;
    if a > 0 {
      StepsAppend(ReadStep(s, retries), a - 1, b, retries);
    }
  }

  lemma {:induction false} PutSteps(s: State, retries: nat)
    requires s.pc.Put?
    ensures Steps(s, |s.pc.todo| + 1, retries) ==
            s.(pc := Ack(s.pc.payload, s.pc.left, s.pc.after), output := s.output + s.pc.todo)
    decreases |s.pc.todo|
  {
    var todo := s.pc.todo;
    var t := ReadStep(s, retries);
    if todo == [] {
      assert s.output + [] == s.output;
      assert Steps(s, 1, retries) == Steps(t, 0, retries);
    } else {
      PutSteps(t, retries);
      assert s.output + [todo[0]] + todo[1..] == s.output + todo;
    }
  }

  function Tooks(bytes: seq<byte>): seq<Log>
  {
    if bytes == [] then [] else [Took(bytes[0])] + Tooks(bytes[1..])
  }

  /** ReceivePacket inside the machine is the receiver of the packet layer. */
  lemma {:induction false} ReceiveSteps(s: State, bytes: seq<byte>, rest: seq<byte>, payload: seq<byte>, replies: seq<byte>, retries: nat)
    requires s.pc.Recv? && !s.pc.rx.Done? && s.pending == bytes + rest
    requires Receive(PACKET_SIZE, s.pc.rx, bytes) == Reception(Done(payload), replies, |bytes|)
    ensures Steps(s, |bytes|, retries) ==
            s.(pc := Got(payload), pending := rest, output := s.output + replies, log := s.log + Tooks(bytes))
    decreases |bytes|
  {
    hide Next, Reply;
    if bytes != [] {
      var b, rx, tail := bytes[0], s.pc.rx, bytes[1..];
      var t := ReadStep(s, retries);
      var o := Receive(PACKET_SIZE, Next(PACKET_SIZE, rx, b), tail);
      assert Receive(PACKET_SIZE, rx, bytes) == GdbPacket.After(Reply(rx, b), 1, o);
      assert Steps(s, |bytes|, retries) == Steps(t, |tail|, retries);
      assert t.pending == tail + rest;
      if Next(PACKET_SIZE, rx, b).Done? {
        assert o == Reception(Next(PACKET_SIZE, rx, b), [], 0);
        assert tail == [] && Steps(t, 0, retries) == t;
        hide Receive, Steps;
        assert Reply(rx, b) + [] == Reply(rx, b) && [Took(b)] + Tooks([]) == [Took(b)];
        assert [] + rest == rest;
      } else {
        hide Receive, Steps;
        ReceiveSteps(t, tail, rest, payload, o.replies, retries);
        hide ReadStep;
        Assoc(s.output, Reply(rx, b), o.replies);
        Assoc(s.log, [Took(b)], Tooks(tail));
      }
    }
  }

  lemma {:induction false} FramesCons(payload: seq<byte>, n: nat)
    ensures Frames(payload, n + 1) == Frame(payload) + Frames(payload, n)
  {
    hide Frame;
    if n == 0 {
      assert Frames(payload, 1) == Frames(payload, 0) + Frame(payload);
    } else {
      FramesCons(payload, n - 1);
    }
  }

  /** Replies on which SendPacket returns: an ack within its retries, or none in all of them. */
  predicate Settles(payload: seq<byte>, retries: nat, replies: seq<byte>)
  {
    var o := Send(payload, retries, 0, replies);
    o.returned.Some? && o.repliesRead == |replies|
  }

  /** What SendPacket puts on the line for these replies. */
  function SentFor(payload: seq<byte>, retries: nat, replies: seq<byte>): seq<byte>
  {
    Frames(payload, Send(payload, retries, 0, replies).transmissions)
  }

  lemma {:induction false} CountIsIrrelevant(payload: seq<byte>, retries: nat, a: nat, b: nat, replies: seq<byte>)
    ensures var x, y := Send(payload, retries, a, replies), Send(payload, retries, b, replies);
            x.transmissions == y.transmissions && x.repliesRead == y.repliesRead && x.returned.Some? == y.returned.Some?
  {
  }

  lemma {:induction false} SettlesUnfolds(payload: seq<byte>, retries: nat, replies: seq<byte>)
    requires Settles(payload, retries, replies)
    ensures retries == 0 ==> replies == [] && SentFor(payload, retries, replies) == []
    ensures retries > 0 ==> replies != []
    ensures retries > 0 && replies[0] == PLUS ==> replies == [PLUS] && SentFor(payload, retries, replies) == Frame(payload)
    ensures retries > 0 && replies[0] != PLUS ==>
              && Settles(payload, retries - 1, replies[1..])
              && SentFor(payload, retries, replies) == Frame(payload) + SentFor(payload, retries - 1, replies[1..])
  {
    SendUnfolds(payload, retries, 0, 0, replies);
    assert Frames(payload, 0) == [];
    FramesCons(payload, 0);
    hide Frame, Frames, Send;
    if retries > 0 && replies != [] && replies[0] != PLUS {
      CountIsIrrelevant(payload, retries - 1, |payload|, 0, replies[1..]);
      FramesCons(payload, Send(payload, retries - 1, 0, replies[1..]).transmissions);
    }
  }

  /** One transmission and its reply. */
  lemma {:induction false} TransmitSteps(s: State, payload: seq<byte>, left: nat, after: Sequel, retries: nat)
    requires left > 0 && s.pending != []
    ensures var b := s.pending[0];
            var t := s.(output := s.output + Frame(payload), pending := s.pending[1..], log := s.log + [Took(b)]);
            Steps(StartSend(s, payload, left, after), |Frame(payload)| + 2, retries) ==
              if b == PLUS then t.(pc := Proceed(after)) else StartSend(t, payload, left - 1, after)
  {
    hide Frame;
    var s0, n := StartSend(s, payload, left, after), |Frame(payload)| + 1;
    PutSteps(s0, retries);
    StepsAppend(s0, n, 1, retries);
    var t := Steps(s0, n, retries);
    assert Steps(t, 1, retries) == Steps(ReadStep(t, retries), 0, retries);
  }

  /** SendPacket inside the machine is the sender of the packet layer. */
  lemma {:induction false} SendSteps(s: State, payload: seq<byte>, left: nat, after: Sequel, replies: seq<byte>,
                                     rest: seq<byte>, retries: nat) returns (n: nat)
    requires Settles(payload, left, replies) && s.pending == replies + rest
    ensures Steps(StartSend(s, payload, left, after), n, retries) ==
            s.(pc := Proceed(after), output := s.output + SentFor(payload, left, replies), pending := rest,
               log := s.log + Tooks(replies))
    decreases left
  {
    SettlesUnfolds(payload, left, replies);
    if left == 0 {
      n := 0;
      assert [] + rest == rest && s.output + [] == s.output && s.log + Tooks([]) == s.log;
    } else {
      var b, tail := replies[0], replies[1..];
      assert s.pending[0] == b && s.pending[1..] == tail + rest;
      assert Tooks(replies) == [Took(b)] + Tooks(tail);
      TransmitSteps(s, payload, left, after, retries);
      hide Frame, Settles, SentFor;
      var m := |Frame(payload)| + 2;
      if b == PLUS {
        n := m;
        assert tail + rest == rest && Tooks(tail) == [] && [Took(b)] + [] == [Took(b)];
      } else {
        var t := s.(output := s.output + Frame(payload), pending := tail + rest, log := s.log + [Took(b)]);
        hide Steps, StartSend;
        n := SendSteps(t, payload, left - 1, after, tail, rest, retries);
        StepsAppend(StartSend(s, payload, left, after), m, n, retries);
        n := m + n;
        Assoc(s.output, Frame(payload), SentFor(payload, left - 1, tail));
        Assoc(s.log, [Took(b)], Tooks(tail));
      }
    }
  }

  /** Bytes on which ReceivePacket returns, at their end. */
  predicate Arrives(bytes: seq<byte>)
  {
    var o := Receive(PACKET_SIZE, Hunting, bytes);
    o.rx.Done? && o.consumed == |bytes|
  }

  function PacketOf(bytes: seq<byte>): seq<byte>
    requires Arrives(bytes)
  {
    Receive(PACKET_SIZE, Hunting, bytes).rx.payload
  }

  function RepliesTo(bytes: seq<byte>): seq<byte>
    requires Arrives(bytes)
  {
    Receive(PACKET_SIZE, Hunting, bytes).replies
  }

  /** Rejected attempts and a good one are such bytes. */
  lemma {:induction false} DeliveryArrives(attempts: seq<GdbGrammar.Attempt>, payload: seq<byte>)
    requires GdbGrammar.Delivers(PACKET_SIZE, attempts, payload)
    ensures var bytes := GdbGrammar.Stream(PACKET_SIZE, attempts);
            && Arrives(bytes) && PacketOf(bytes) == payload
            && RepliesTo(bytes) == Repeat(MINUS, |attempts| - 1) + [PLUS]
  {
    hide Receive, GdbGrammar.Stream, GdbGrammar.Delivers;
    var bytes := GdbGrammar.Stream(PACKET_SIZE, attempts);
    GdbGrammar.DeliveryIsReceived(PACKET_SIZE, attempts, payload, []);
    assert bytes + [] == bytes;
  }

  /** An ack after fewer other replies than there are retries settles a SendPacket. */
  lemma {:induction false} AckSettles(payload: seq<byte>, retries: nat, naks: seq<byte>)
    requires PLUS !in naks && |naks| < retries
    ensures Settles(payload, retries, naks + [PLUS]) && SentFor(payload, retries, naks + [PLUS]) == Frames(payload, |naks| + 1)
  {
    hide Send, Frames;
    SendOutcomes(payload, retries, 0, naks + [PLUS], |naks|);
  }

  /** A packet that comes in during the exchange: the bytes on which ReceivePacket returns, and the
      replies on which the SendPacket of the answer does. */
  datatype Visit = Visit(bytes: seq<byte>, acks: seq<byte>)

  /** A packet that is not the F reply is served inside the exchange: memory writes are done,
      anything else is answered with an empty packet. */
  function Service(mem: Memory, packet: seq<byte>): Effect
  {
    var text := CString(packet);
    if text != [] && text[0] == LETTER_M then WriteCommand(mem, text) else Answer(mem, [])
  }

  predicate Servable(mem: Memory, v: Visit, retries: nat)
  {
    && Arrives(v.bytes) && !ParseFReply(CString(PacketOf(v.bytes))).FReply?
    && Service(mem, PacketOf(v.bytes)).Answer? && Settles(Service(mem, PacketOf(v.bytes)).payload, retries, v.acks)
  }

  predicate AllServable(mem: Memory, visits: seq<Visit>, retries: nat)
    decreases |visits|
  {
    visits == [] ||
    (Servable(mem, visits[0], retries) && AllServable(Service(mem, PacketOf(visits[0].bytes)).mem, visits[1..], retries))
  }

  /** Memory after the packets, what the stub sends for them, and what the debugger sends. */
  function ServedMem(mem: Memory, visits: seq<Visit>, retries: nat): Memory
    requires AllServable(mem, visits, retries)
    decreases |visits|
  {
    if visits == [] then mem else ServedMem(Service(mem, PacketOf(visits[0].bytes)).mem, visits[1..], retries)
  }

  function ServedOutput(mem: Memory, visits: seq<Visit>, retries: nat): seq<byte>
    requires AllServable(mem, visits, retries)
    decreases |visits|
  {
    if visits == [] then []
    else
      var e := Service(mem, PacketOf(visits[0].bytes));
      RepliesTo(visits[0].bytes) + SentFor(e.payload, retries, visits[0].acks) + ServedOutput(e.mem, visits[1..], retries)
  }

  function Requests(visits: seq<Visit>): seq<byte>
  {
    if visits == [] then [] else visits[0].bytes + (visits[0].acks + Requests(visits[1..]))
  }

  /** The replies on which the error packet of an F reply, if there is one, is done with. */
  predicate ErrorSettles(f: FReply, retries: nat, acks: seq<byte>)
    requires f.FReply?
  {
    if f.errNo > 0 then Settles(ErrorPacket(f.errNo % 256), retries, acks) else acks == []
  }

  function ErrorSent(f: FReply, retries: nat, acks: seq<byte>): seq<byte>
    requires f.FReply?
  {
    if f.errNo > 0 then SentFor(ErrorPacket(f.errNo % 256), retries, acks) else []
  }

  /** From `s` to `t` an exchange with reply `f` has ended: its code returned, the break flag set
      if the reply asks for it, `sent` put on the line, memory as it was. */
  predicate Ended(s: State, t: State, f: FReply, sent: seq<byte>)
    requires f.FReply?
  {
    && t.pc.Idle? && !t.processing && t.mem == s.mem
    && t.results == s.results + [f.retCode]
    && t.ctrlC == (s.ctrlC || f.ctrlC)
    && t.output == s.output + sent
  }

  /** A GdbRead whose request is settled by `asked`, which then receives any packets to serve and
      the F reply, each after any rejected attempts, returns the code of the reply, has done the
      memory writes in order, has sent its request as often as `asked` made it, the replies and
      answers to every packet and the error packet if any; it leaves the break flag to the callback
      exactly when the reply asks for a break. */
  lemma {:induction false} ReadCompletes(s: State, request: seq<byte>, asked: seq<byte>, visits: seq<Visit>, reply: seq<byte>,
                                         f: FReply, acks: seq<byte>, rest: seq<byte>, retries: nat) returns (n: nat)
    requires s.pc.Idle? && Settles(CString(request), retries, asked) && AllServable(s.mem, visits, retries)
    requires Arrives(reply) && f == ParseFReply(CString(PacketOf(reply))) && f.FReply? && ErrorSettles(f, retries, acks)
    requires s.pending == asked + (Requests(visits) + (reply + (acks + rest)))
    ensures var t := Steps(Apply(s, Start(request), retries), n, retries);
            && Ended(s.(mem := ServedMem(s.mem, visits, retries)), t, f,
                     SentFor(CString(request), retries, asked) +
                     (ServedOutput(s.mem, visits, retries) + (RepliesTo(reply) + ErrorSent(f, retries, acks))))
            && t.pending == rest
  {
    hide CString, ParseFReply, Arrives, PacketOf, RepliesTo, ErrorSent, ErrorSettles, Settles, SentFor, AllServable, Requests;
    var s0 := Apply(s, Start(request), retries);
    var n1 := SendSteps(s.(processing := true), CString(request), retries, ThenReceive, asked,
                        Requests(visits) + (reply + (acks + rest)), retries);
    hide Steps, Apply, ServedMem, ServedOutput, Ended, StartSend;
    var s1 := Steps(s0, n1, retries);
    var n2 := PacketsAreServed(s1, visits, reply + (acks + rest), retries);
    var s2 := Steps(s1, n2, retries);
    StepsAppend(s0, n1, n2, retries);
    var n3 := ReplyEnds(s2, reply, f, acks, rest, retries);
    StepsAppend(s0, n1 + n2, n3, retries);
    n := n1 + n2 + n3;
    EndedLater(s, s2, Steps(s2, n3, retries), f, ServedMem(s.mem, visits, retries), SentFor(CString(request), retries, asked),
               ServedOutput(s.mem, visits, retries), RepliesTo(reply) + ErrorSent(f, retries, acks));
  }

  lemma {:induction false} EndedLater(s: State, s2: State, t: State, f: FReply, mem: Memory,
                                      a: seq<byte>, b: seq<byte>, c: seq<byte>)
    requires f.FReply? && Ended(s2, t, f, c)
    requires s2.mem == mem && s2.results == s.results && s2.ctrlC == s.ctrlC && s2.output == s.output + a + b
    ensures Ended(s.(mem := mem), t, f, a + (b + c))
  {
    Join4(s.output, a, b, c);
  }

  lemma Join4(a: seq<byte>, b: seq<byte>, c: seq<byte>, d: seq<byte>)
    ensures a + b + c + d == a + (b + (c + d)) == a + (b + c + d)
  {
  }

  /** The packets before the F reply, one after the other. */
  lemma {:induction false} PacketsAreServed(s: State, visits: seq<Visit>, rest: seq<byte>, retries: nat) returns (n: nat)
    requires s.pc == Recv(Hunting) && AllServable(s.mem, visits, retries) && s.pending == Requests(visits) + rest
    ensures var t := Steps(s, n, retries);
            && t == s.(mem := ServedMem(s.mem, visits, retries), pending := rest, log := t.log,
                       output := s.output + ServedOutput(s.mem, visits, retries))
    decreases |visits|
  {
    hide CString, ParseFReply, Arrives, PacketOf, RepliesTo, Settles, SentFor, Steps, Service;
    if visits == [] {
      n := 0;
      NoSteps(s, retries);
      assert s.pending == rest && s.output + [] == s.output;
    } else {
      var v, tail := visits[0], visits[1..];
      var e := Service(s.mem, PacketOf(v.bytes));
      Join4([], v.bytes, v.acks, Requests(tail) + rest);
      assert s.pending == v.bytes + (v.acks + (Requests(tail) + rest));
      var n1 := PacketIsServed(s, v, Requests(tail) + rest, retries);
      var s1 := Steps(s, n1, retries);
      var n2 := PacketsAreServed(s1, tail, rest, retries);
      StepsAppend(s, n1, n2, retries);
      n := n1 + n2;
      Join4(s.output, RepliesTo(v.bytes), SentFor(e.payload, retries, v.acks), ServedOutput(e.mem, tail, retries));
    }
  }

  lemma NoSteps(s: State, retries: nat)
    ensures Steps(s, 0, retries) == s
  {
  }

  lemma {:induction false} PacketIsServed(s: State, v: Visit, rest: seq<byte>, retries: nat) returns (n: nat)
    requires s.pc == Recv(Hunting) && Servable(s.mem, v, retries) && s.pending == v.bytes + (v.acks + rest)
    ensures var t, e := Steps(s, n, retries), Service(s.mem, PacketOf(v.bytes));
            && t == s.(mem := e.mem, pending := rest, log := t.log,
                       output := s.output + RepliesTo(v.bytes) + SentFor(e.payload, retries, v.acks))
  {
    hide CString, ParseFReply, Service, Steps, StartSend, Settles, SentFor;
    PacketIsReceived(s, v.bytes, v.acks + rest, retries);
    hide Arrives, PacketOf, RepliesTo;
    var n1, e := |v.bytes|, Service(s.mem, PacketOf(v.bytes));
    var s1 := Steps(s, n1, retries);
    DispatchService(s1, PacketOf(v.bytes), retries);
    StepsAppend(s, n1, 1, retries);
    var n3 := SendSteps(s1.(mem := e.mem), e.payload, retries, ThenReceive, v.acks, rest, retries);
    StepsAppend(s, n1 + 1, n3, retries);
    n := n1 + 1 + n3;
  }

  lemma {:induction false} DispatchService(s: State, packet: seq<byte>, retries: nat)
    requires s.pc == Got(packet) && !ParseFReply(CString(packet)).FReply? && Service(s.mem, packet).Answer?
    ensures var e := Service(s.mem, packet);
            Steps(s, 1, retries) == StartSend(s.(mem := e.mem), e.payload, retries, ThenReceive)
  {
    hide StartSend, StrHexToUintn, WriteCommand;
    var t, e := ReadStep(s, retries), Service(s.mem, packet);
    assert t == StartSend(s.(mem := e.mem), e.payload, retries, ThenReceive);
    assert Steps(s, 1, retries) == Steps(t, 0, retries);
  }

  /** The F reply ends the exchange. */
  lemma {:induction false} ReplyEnds(s: State, reply: seq<byte>, f: FReply, acks: seq<byte>, rest: seq<byte>, retries: nat)
    returns (n: nat)
    requires s.pc == Recv(Hunting) && Arrives(reply)
    requires f == ParseFReply(CString(PacketOf(reply))) && f.FReply? && ErrorSettles(f, retries, acks)
    requires s.pending == reply + (acks + rest)
    ensures var t := Steps(s, n, retries);
            Ended(s, t, f, RepliesTo(reply) + ErrorSent(f, retries, acks)) && t.pending == rest
  {
    hide CString, ParseFReply, ErrorSent, Steps, ErrorSettles;
    PacketIsReceived(s, reply, acks + rest, retries);
    hide Arrives, PacketOf, RepliesTo;
    var s1 := Steps(s, |reply|, retries);
    var m := AnswerIsHandled(s1, PacketOf(reply), f, acks, rest, retries);
    StepsAppend(s, |reply|, m, retries);
    n := |reply| + m;
    Assoc(s.output, RepliesTo(reply), ErrorSent(f, retries, acks));
  }

  lemma {:induction false} PacketIsReceived(s: State, bytes: seq<byte>, rest: seq<byte>, retries: nat)
    requires s.pc == Recv(Hunting) && Arrives(bytes) && s.pending == bytes + rest
    ensures Steps(s, |bytes|, retries) ==
            s.(pc := Got(PacketOf(bytes)), pending := rest, output := s.output + RepliesTo(bytes), log := s.log + Tooks(bytes))
  {
    hide Receive, Steps;
    ReceiveSteps(s, bytes, rest, PacketOf(bytes), RepliesTo(bytes), retries);
  }

  /** The state after the switch on an F packet. */
  function AfterF(s: State, f: FReply, retries: nat): State
    requires f.FReply?
  {
    var s' := s.(ctrlC := s.ctrlC || f.ctrlC, log := if f.ctrlC then s.log + [Break] else s.log);
    if f.errNo > 0 then StartSend(s', ErrorPacket(f.errNo % 256), retries, ThenReturn(f.retCode)) else s'.(pc := Finish(f.retCode))
  }

  lemma {:induction false} DispatchF(s: State, reply: seq<byte>, f: FReply, retries: nat)
    requires s.pc == Got(reply) && f == ParseFReply(CString(reply)) && f.FReply?
    ensures Steps(s, 1, retries) == AfterF(s, f, retries)
  {
    hide StartSend, ErrorPacket, StrHexToUintn, WriteCommand;
    var t := ReadStep(s, retries);
    assert t == AfterF(s, f, retries);
    assert Steps(s, 1, retries) == Steps(t, 0, retries);
  }

  lemma {:induction false} AnswerIsHandled(s: State, reply: seq<byte>, f: FReply, acks: seq<byte>, rest: seq<byte>, retries: nat)
    returns (n: nat)
    requires s.pc == Got(reply) && f == ParseFReply(CString(reply)) && f.FReply? && ErrorSettles(f, retries, acks)
    requires s.pending == acks + rest
    ensures var t := Steps(s, n, retries);
            Ended(s, t, f, ErrorSent(f, retries, acks)) && t.pending == rest
  {
    hide ErrorPacket, ParseFReply, CString, Steps, StartSend, Settles, SentFor;
    DispatchF(s, reply, f, retries);
    var s1 := s.(ctrlC := s.ctrlC || f.ctrlC, log := if f.ctrlC then s.log + [Break] else s.log);
    var m := 0;
    if f.errNo > 0 {
      m := SendSteps(s1, ErrorPacket(f.errNo % 256), retries, ThenReturn(f.retCode), acks, rest, retries);
    } else {
      NoSteps(AfterF(s, f, retries), retries);
      assert acks + rest == rest && s.output + [] == s.output;
    }
    StepsAppend(s, 1, m, retries);
    FinishStep(Steps(s, 1 + m, retries), retries);
    StepsAppend(s, 1 + m, 1, retries);
    n := 1 + m + 1;
  }

  lemma {:induction false} FinishStep(s: State, retries: nat)
    requires s.pc.Finish?
    ensures Steps(s, 1, retries) == s.(pc := Idle, processing := false, results := s.results + [s.pc.retCode])
  {
    assert Steps(s, 1, retries) == Steps(ReadStep(s, retries), 0, retries);
  }

  // ----- the callback itself

  class Stub {
    const line: SerialLine
    var ctrlCBreakFlag: bool
    var processingFPacket: bool
    var singleSteps: nat

    constructor (line: SerialLine)
      ensures this.line == line && !ctrlCBreakFlag && !processingFPacket && singleSteps == 0
    {
      this.line, ctrlCBreakFlag, processingFPacket, singleSteps := line, false, false, 0;
    }

    /** GdbPeriodicCallBack: the pending bytes are those that have arrived on the line. */
    method GdbPeriodicCallBack(ghost s: State)
      requires s.ctrlC == ctrlCBreakFlag && s.processing == processingFPacket && s.pending == line.input
      modifies this, line
      ensures var t := Callback(s);
              && ctrlCBreakFlag == t.ctrlC && processingFPacket == t.processing && line.input == t.pending
              && line.output == old(line.output)
              && singleSteps == old(singleSteps) + (if t.log[|s.log|].stepped then 1 else 0)
    {
      if !ctrlCBreakFlag && !processingFPacket {
        ghost var n := 0;
        while true
          invariant n <= |s.pending| && line.input == s.pending[n..] && CTRL_C !in s.pending[..n]
          invariant !ctrlCBreakFlag && !processingFPacket
          invariant singleSteps == old(singleSteps) && line.output == old(line.output)
          decreases |line.input|
        {
          if line.input == [] {
            IndexOfMissing(s.pending, CTRL_C);
            break;
          }
          var c := line.input[0];
          line.input := line.input[1..];
          n := n + 1;
          if c == CTRL_C {
            assert s.pending == s.pending[..n - 1] + [CTRL_C] + s.pending[n..];
            IndexOfIsFirst(s.pending[..n - 1], CTRL_C, s.pending[n..]);
            ctrlCBreakFlag := true;
            break;
          }
        }
      }
      if ctrlCBreakFlag {
        singleSteps := singleSteps + 1;
        ctrlCBreakFlag := false;
      }
    }
  }
}
