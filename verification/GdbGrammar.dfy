/** What ReceivePacket accepts, stated without its automaton: the bytes it consumes are a
    sequence of framed attempts, all rejected by their checksum except the last. */
module GdbGrammar {
  import opened Basics
  import opened GdbBytes
  import opened GdbNumbers
  import opened GdbPacket

  /** Noise before a '$', runs abandoned by a later '$', the payload that reached its
      terminator, and the two checksum characters. */
  datatype Attempt = Attempt(noise: seq<byte>, restarts: seq<seq<byte>>, payload: seq<byte>, d1: byte, d2: byte)

  predicate Clean(s: seq<byte>)
  {
    DOLLAR !in s && HASH !in s
  }

  function Abandoned(runs: seq<seq<byte>>): seq<byte>
  {
    if runs == [] then [] else Abandoned(runs[..|runs| - 1]) + runs[|runs| - 1] + [DOLLAR]
  }

  /** A payload that fills the buffer has no '#': the digits are read right after it. */
  function Terminator(size: nat, payload: seq<byte>): seq<byte>
  {
    if |payload| + 1 < size then [HASH] else []
  }

  function Opening(noise: seq<byte>, restarts: seq<seq<byte>>): seq<byte>
  {
    noise + [DOLLAR] + Abandoned(restarts)
  }

  function AttemptBytes(size: nat, a: Attempt): seq<byte>
  {
    Opening(a.noise, a.restarts) + a.payload + Terminator(size, a.payload) + [a.d1, a.d2]
  }

  predicate OpeningOk(size: nat, noise: seq<byte>, restarts: seq<seq<byte>>)
  {
    DOLLAR !in noise && forall run <- restarts :: Clean(run) && |run| + 1 < size
  }

  predicate WellFormed(size: nat, a: Attempt)
  {
    OpeningOk(size, a.noise, a.restarts) && Clean(a.payload) && |a.payload| + 1 <= size
  }

  predicate Good(a: Attempt)
  {
    ChecksumOk(a.payload, a.d1, a.d2)
  }

  /** Two digits of either case are good exactly for their own value. */
  lemma {:induction false} GoodIffValue(a: Attempt, hi: nat, lo: nat)
    requires IsDigit(a.d1, hi) && IsDigit(a.d2, lo)
    ensures Good(a) <==> 16 * hi + lo == Sum(a.payload)
  {
    hide StrHexToUintn, Sum;
    TwoDigits(a.d1, hi, a.d2, lo);
  }

  function Stream(size: nat, attempts: seq<Attempt>): seq<byte>
  {
    if attempts == [] then []
    else Stream(size, attempts[..|attempts| - 1]) + AttemptBytes(size, attempts[|attempts| - 1])
  }

  predicate AllRejected(size: nat, attempts: seq<Attempt>)
  {
    forall a <- attempts :: WellFormed(size, a) && !Good(a)
  }

  /** `attempts` is a whole successful reception that delivers `payload`. */
  predicate Delivers(size: nat, attempts: seq<Attempt>, payload: seq<byte>)
  {
    && attempts != []
    && AllRejected(size, attempts[..|attempts| - 1])
    && var last := attempts[|attempts| - 1];
       WellFormed(size, last) && Good(last) && last.payload == payload
  }

  // ----- every such stream is received

  lemma {:induction false} NoiseIsSkipped(size: nat, noise: seq<byte>, rest: seq<byte>)
    requires DOLLAR !in noise
    ensures Receive(size, Hunting, noise + rest) == After([], |noise|, Receive(size, Hunting, rest))
  {
    if noise == [] {
      assert noise + rest == rest;
      AfterAfter([], 0, [], 0, Receive(size, Hunting, rest));
    } else {
      assert noise[0] in noise;
      assert (noise + rest)[1..] == noise[1..] + rest;
      NoiseIsSkipped(size, noise[1..], rest);
      AfterAfter([], 1, [], |noise| - 1, Receive(size, Hunting, rest));
    }
  }

  lemma {:induction false} RunIsStored(size: nat, buf: seq<byte>, run: seq<byte>, rest: seq<byte>)
    requires Clean(run) && |buf| + |run| + 1 <= size
    ensures Receive(size, Enter(size, buf), run + rest) == After([], |run|, Receive(size, Enter(size, buf + run), rest))
    decreases |run|
  {
    if run == [] {
      assert run + rest == rest && buf + run == buf;
      AfterAfter([], 0, [], 0, Receive(size, Enter(size, buf), rest));
    } else {
      assert run[0] in run;
      assert (run + rest)[1..] == run[1..] + rest;
      assert buf + [run[0]] + run[1..] == buf + run;
      RunIsStored(size, buf + [run[0]], run[1..], rest);
      AfterAfter([], 1, [], |run| - 1, Receive(size, Enter(size, buf + run), rest));
    }
  }

  lemma {:induction false} RestartsAreDropped(size: nat, runs: seq<seq<byte>>, rest: seq<byte>)
    requires forall run <- runs :: Clean(run) && |run| + 1 < size
    ensures Receive(size, Enter(size, []), Abandoned(runs) + rest) ==
            After([], |Abandoned(runs)|, Receive(size, Enter(size, []), rest))
    decreases |runs|
  {
    if runs == [] {
      assert Abandoned(runs) + rest == rest;
      AfterAfter([], 0, [], 0, Receive(size, Enter(size, []), rest));
    } else {
      var front, run := runs[..|runs| - 1], runs[|runs| - 1];
      var tail := [DOLLAR] + rest;
      assert Abandoned(runs) + rest == Abandoned(front) + (run + tail);
      RestartsAreDropped(size, front, run + tail);
      RunIsStored(size, [], run, tail);
      assert [] + run == run && tail[1..] == rest;
      AfterAfter([], |run|, [], 1, Receive(size, Enter(size, []), rest));
      AfterAfter([], |Abandoned(front)|, [], |run| + 1, Receive(size, Enter(size, []), rest));
    }
  }

  lemma {:induction false} OpeningIsRead(size: nat, noise: seq<byte>, restarts: seq<seq<byte>>, rest: seq<byte>)
    requires OpeningOk(size, noise, restarts)
    ensures Receive(size, Hunting, Opening(noise, restarts) + rest) ==
            After([], |Opening(noise, restarts)|, Receive(size, Enter(size, []), rest))
  {
    hide Receive, Abandoned, After;
    var r1 := Abandoned(restarts) + rest;
    assert Opening(noise, restarts) + rest == noise + ([DOLLAR] + r1);
    NoiseIsSkipped(size, noise, [DOLLAR] + r1);
    HuntUnfolds(size, |noise|, [DOLLAR] + r1);
    assert ([DOLLAR] + r1)[1..] == r1;
    RestartsAreDropped(size, restarts, rest);
    var none: seq<byte> := [];
    assert none + none == none;
    AfterAfter(none, |noise| + 1, none, |Abandoned(restarts)|, Receive(size, Enter(size, []), rest));
  }

  lemma {:induction false} PayloadIsRead(size: nat, payload: seq<byte>, rest: seq<byte>)
    requires Clean(payload) && |payload| + 1 <= size
    ensures Receive(size, Enter(size, []), payload + Terminator(size, payload) + rest) ==
            After([], |payload| + |Terminator(size, payload)|, Receive(size, FirstDigit(payload), rest))
  {
    var t := Terminator(size, payload) + rest;
    assert payload + Terminator(size, payload) + rest == payload + t && [] + payload == payload;
    RunIsStored(size, [], payload, t);
    if |payload| + 1 < size {
      assert t[1..] == rest;
      AfterAfter([], |payload|, [], 1, Receive(size, FirstDigit(payload), rest));
    } else {
      assert t == rest;
    }
  }

  /** One well-formed attempt is consumed whole and answered once, whatever follows it. */
  lemma {:induction false} AttemptIsAnswered(size: nat, a: Attempt, rest: seq<byte>)
    requires WellFormed(size, a)
    ensures Receive(size, Hunting, AttemptBytes(size, a) + rest) ==
            if Good(a) then Reception(Done(a.payload), [PLUS], |AttemptBytes(size, a)|)
            else After([MINUS], |AttemptBytes(size, a)|, Receive(size, Hunting, rest))
  {
    var op, body := Opening(a.noise, a.restarts), a.payload + Terminator(size, a.payload);
    var digits := [a.d1, a.d2] + rest;
    assert AttemptBytes(size, a) + rest == op + (body + digits);
    OpeningIsRead(size, a.noise, a.restarts, body + digits);
    PayloadIsRead(size, a.payload, digits);
    DigitsRead(size, a.payload, digits);
    assert digits[2..] == rest;
    var o := Receive(size, FirstDigit(a.payload), digits);
    AfterAfter([], |op|, [], |body|, o);
    assert Receive(size, Hunting, op + (body + digits)) == After([], |op| + |body|, o);
    if Good(a) {
      AfterAfter([], |op| + |body|, [], 0, o);
    } else {
      AfterAfter([], |op| + |body|, [MINUS], 2, Receive(size, Hunting, rest));
    }
  }

  lemma {:induction false} RejectedAreNaked(size: nat, attempts: seq<Attempt>, rest: seq<byte>)
    requires AllRejected(size, attempts)
    ensures Receive(size, Hunting, Stream(size, attempts) + rest) ==
            After(Repeat(MINUS, |attempts|), |Stream(size, attempts)|, Receive(size, Hunting, rest))
    decreases |attempts|
  {
    if attempts == [] {
      assert Stream(size, attempts) + rest == rest;
      assert Repeat(MINUS, 0) == [];
      AfterAfter([], 0, [], 0, Receive(size, Hunting, rest));
    } else {
      var n := |attempts| - 1;
      var front, last := attempts[..n], attempts[n];
      var bytes := AttemptBytes(size, last);
      assert Stream(size, attempts) + rest == Stream(size, front) + (bytes + rest);
      RejectedAreNaked(size, front, bytes + rest);
      AttemptIsAnswered(size, last, rest);
      RepeatSnoc(MINUS, n);
      AfterAfter(Repeat(MINUS, n), |Stream(size, front)|, [MINUS], |bytes|, Receive(size, Hunting, rest));
    }
  }

  lemma {:induction false} DeliveryIsReceived(size: nat, attempts: seq<Attempt>, payload: seq<byte>, rest: seq<byte>)
    requires Delivers(size, attempts, payload)
    ensures Receive(size, Hunting, Stream(size, attempts) + rest) ==
            Reception(Done(payload), Repeat(MINUS, |attempts| - 1) + [PLUS], |Stream(size, attempts)|)
  {
    var n := |attempts| - 1;
    var front, last := attempts[..n], attempts[n];
    var bytes := AttemptBytes(size, last);
    assert Stream(size, attempts) + rest == Stream(size, front) + (bytes + rest);
    RejectedAreNaked(size, front, bytes + rest);
    AttemptIsAnswered(size, last, rest);
    assert Receive(size, Hunting, bytes + rest) == Reception(Done(payload), [PLUS], |bytes|);
    assert |Stream(size, attempts)| == |Stream(size, front)| + |bytes|;
  }

  // ----- every reception is such a stream

  /** `tail` is one attempt in progress when the receiver stands at `rx`. */
  predicate InProgress(size: nat, tail: seq<byte>, noise: seq<byte>, restarts: seq<seq<byte>>, rx: Rx)
  {
    && OpeningOk(size, noise, restarts)
    && match rx
       case Hunting => restarts == [] && tail == noise
       case Data(buf) => Clean(buf) && |buf| + 1 < size && tail == Opening(noise, restarts) + buf
       case FirstDigit(buf) =>
         Clean(buf) && |buf| + 1 <= size && tail == Opening(noise, restarts) + buf + Terminator(size, buf)
       case SecondDigit(buf, d) =>
         Clean(buf) && |buf| + 1 <= size && tail == Opening(noise, restarts) + buf + Terminator(size, buf) + [d]
       case Done(_) => false
  }

  lemma {:induction false} StreamSnoc(size: nat, attempts: seq<Attempt>, a: Attempt)
    ensures Stream(size, attempts + [a]) == Stream(size, attempts) + AttemptBytes(size, a)
  {
    assert (attempts + [a])[..|attempts|] == attempts;
  }

  lemma {:induction false} HuntOneByte(size: nat, tail: seq<byte>, noise: seq<byte>, b: byte)
    requires size >= 1 && InProgress(size, tail, noise, [], Hunting)
    ensures InProgress(size, tail + [b], if b == DOLLAR then noise else noise + [b], [], Next(size, Hunting, b))
  {
    if b == DOLLAR {
      assert tail + [b] == Opening(noise, []) + [];
    }
  }

  lemma {:induction false} AbandonOne(noise: seq<byte>, restarts: seq<seq<byte>>, buf: seq<byte>)
    ensures Opening(noise, restarts + [buf]) == Opening(noise, restarts) + buf + [DOLLAR]
  {
    var restarts' := restarts + [buf];
    assert restarts'[..|restarts|] == restarts;
    assert Abandoned(restarts') == Abandoned(restarts) + buf + [DOLLAR];
    hide Abandoned;
  }

  lemma {:induction false} StoreDollar(size: nat, tail: seq<byte>, noise: seq<byte>, restarts: seq<seq<byte>>, buf: seq<byte>)
    requires size >= 1 && InProgress(size, tail, noise, restarts, Data(buf))
    ensures InProgress(size, tail + [DOLLAR], noise, restarts + [buf], Enter(size, []))
  {
    AbandonOne(noise, restarts, buf);
    hide Opening;
    assert Opening(noise, restarts + [buf]) + [] == Opening(noise, restarts + [buf]);
  }

  lemma {:induction false} StoreOther(size: nat, tail: seq<byte>, noise: seq<byte>, restarts: seq<seq<byte>>, buf: seq<byte>, b: byte)
    requires size >= 1 && InProgress(size, tail, noise, restarts, Data(buf)) && b != DOLLAR && b != HASH
    ensures InProgress(size, tail + [b], noise, restarts, Enter(size, buf + [b]))
  {
    hide Opening;
    var op, buf' := Opening(noise, restarts), buf + [b];
    assert op + buf' == tail + [b];
    assert op + buf' + [] == op + buf';
  }

  lemma {:induction false} StoreOneByte(size: nat, tail: seq<byte>, noise: seq<byte>, restarts: seq<seq<byte>>, buf: seq<byte>, b: byte)
    requires size >= 1 && InProgress(size, tail, noise, restarts, Data(buf))
    ensures InProgress(size, tail + [b], noise, if b == DOLLAR then restarts + [buf] else restarts,
                       Next(size, Data(buf), b))
  {
    if b == DOLLAR {
      StoreDollar(size, tail, noise, restarts, buf);
    } else if b != HASH {
      StoreOther(size, tail, noise, restarts, buf, b);
    } else {
      hide Opening;
    }
  }

  /** A byte that is not the second digit of a checksum extends the attempt in progress. */
  lemma {:induction false} ExtendAttempt(size: nat, tail: seq<byte>, noise: seq<byte>, restarts: seq<seq<byte>>, rx: Rx, b: byte)
    returns (noise': seq<byte>, restarts': seq<seq<byte>>)
    requires size >= 1 && InProgress(size, tail, noise, restarts, rx) && !rx.SecondDigit?
    ensures InProgress(size, tail + [b], noise', restarts', Next(size, rx, b))
  {
    noise', restarts' := noise, restarts;
    if rx.Hunting? {
      HuntOneByte(size, tail, noise, b);
      noise' := if b == DOLLAR then noise else noise + [b];
    } else if rx.Data? {
      StoreOneByte(size, tail, noise, restarts, rx.buf, b);
      restarts' := if b == DOLLAR then restarts + [rx.buf] else restarts;
    }
  }

  /** The byte that completes the checksum completes the attempt. */
  lemma {:induction false} CompleteAttempt(size: nat, tail: seq<byte>, noise: seq<byte>, restarts: seq<seq<byte>>, rx: Rx, b: byte)
    returns (a: Attempt)
    requires InProgress(size, tail, noise, restarts, rx) && rx.SecondDigit?
    ensures a == Attempt(noise, restarts, rx.buf, rx.d, b)
    ensures WellFormed(size, a) && AttemptBytes(size, a) == tail + [b]
  {
    a := Attempt(noise, restarts, rx.buf, rx.d, b);
    assert [a.d1, a.d2] == [rx.d] + [b];
  }

  /** `attempts` explains a reception that started after `before` rejected attempts and used
      `all`: a delivery if it returned, and one '-' per rejected attempt in any case. */
  ghost predicate Explains(size: nat, before: nat, attempts: seq<Attempt>, all: seq<byte>, o: Reception)
  {
    if o.rx.Done? then
      && |attempts| > before && Delivers(size, attempts, o.rx.payload) && all == Stream(size, attempts)
      && o.replies == Repeat(MINUS, |attempts| - before - 1) + [PLUS]
    else
      && |attempts| >= before && AllRejected(size, attempts) && Stream(size, attempts) <= all
      && o.replies == Repeat(MINUS, |attempts| - before)
  }

  lemma {:induction false} ExplainsAfterNak(size: nat, before: nat, attempts: seq<Attempt>, all: seq<byte>, o: Reception)
    requires Explains(size, before + 1, attempts, all, o)
    ensures Explains(size, before, attempts, all, After([MINUS], 1, o))
  {
    RepeatSnoc(MINUS, |attempts| - before - (if o.rx.Done? then 2 else 1));
  }

  lemma {:induction false} ExplainsAfterSilence(size: nat, before: nat, attempts: seq<Attempt>, all: seq<byte>, o: Reception)
    requires Explains(size, before, attempts, all, o)
    ensures Explains(size, before, attempts, all, After([], 1, o))
  {
    assert [] + o.replies == o.replies;
  }

  lemma {:induction false} ExplainsNothing(size: nat, rejected: seq<Attempt>, tail: seq<byte>, rx: Rx)
    requires AllRejected(size, rejected) && !rx.Done?
    ensures Explains(size, |rejected|, rejected, Stream(size, rejected) + tail, Reception(rx, [], 0))
  {
    assert Repeat(MINUS, 0) == [];
  }

  lemma {:induction false} ExplainsDelivery(size: nat, rejected: seq<Attempt>, a: Attempt)
    requires AllRejected(size, rejected) && WellFormed(size, a) && Good(a)
    ensures Explains(size, |rejected|, rejected + [a], Stream(size, rejected) + AttemptBytes(size, a),
                     Reception(Done(a.payload), [PLUS], 1))
  {
    StreamSnoc(size, rejected, a);
    assert (rejected + [a])[..|rejected|] == rejected;
    assert Repeat(MINUS, 0) == [];
  }

  lemma {:induction false} MoveOneByte(whole: seq<byte>, tail: seq<byte>, s: seq<byte>, n: nat)
    requires n < |s|
    ensures whole + (tail + [s[0]]) + s[1..][..n] == whole + tail + s[..1 + n]
  {
    assert s[..1 + n] == [s[0]] + s[1..][..n];
  }

  lemma {:induction false} ReceptionIsExplained(size: nat, rejected: seq<Attempt>, tail: seq<byte>,
                                                noise: seq<byte>, restarts: seq<seq<byte>>, rx: Rx, s: seq<byte>)
    returns (attempts: seq<Attempt>)
    requires size >= 1 && AllRejected(size, rejected) && InProgress(size, tail, noise, restarts, rx)
    ensures var o := Receive(size, rx, s);
            Explains(size, |rejected|, attempts, Stream(size, rejected) + tail + s[..o.consumed], o)
    decreases |s|, 1
  {
    if s == [] {
      attempts := rejected;
      ExplainsNothing(size, rejected, tail, rx);
      assert Stream(size, rejected) + tail + s[..0] == Stream(size, rejected) + tail;
    } else if rx.SecondDigit? {
      attempts := VerdictIsExplained(size, rejected, tail, noise, restarts, rx, s);
    } else {
      attempts := ByteIsExplained(size, rejected, tail, noise, restarts, rx, s);
    }
  }

  lemma {:induction false} ByteIsExplained(size: nat, rejected: seq<Attempt>, tail: seq<byte>,
                                           noise: seq<byte>, restarts: seq<seq<byte>>, rx: Rx, s: seq<byte>)
    returns (attempts: seq<Attempt>)
    requires size >= 1 && AllRejected(size, rejected) && InProgress(size, tail, noise, restarts, rx)
    requires !rx.SecondDigit? && s != []
    ensures var o := Receive(size, rx, s);
            Explains(size, |rejected|, attempts, Stream(size, rejected) + tail + s[..o.consumed], o)
    decreases |s|, 0
  {
    hide StrHexToUintn, InProgress, AllRejected, Stream, Explains;
    var b, rest, whole := s[0], s[1..], Stream(size, rejected);
    var o' := Receive(size, Next(size, rx, b), rest);
    var noise', restarts' := ExtendAttempt(size, tail, noise, restarts, rx, b);
    attempts := ReceptionIsExplained(size, rejected, tail + [b], noise', restarts', Next(size, rx, b), rest);
    assert Receive(size, rx, s) == After([], 1, o');
    ExplainsAfterSilence(size, |rejected|, attempts, whole + (tail + [b]) + rest[..o'.consumed], o');
    MoveOneByte(whole, tail, s, o'.consumed);
  }

  lemma {:induction false} VerdictUnfolds(size: nat, rx: Rx, s: seq<byte>)
    requires rx.SecondDigit? && s != []
    ensures Receive(size, rx, s) ==
            if ChecksumOk(rx.buf, rx.d, s[0]) then Reception(Done(rx.buf), [PLUS], 1)
            else After([MINUS], 1, Receive(size, Hunting, s[1..]))
  {
    hide ChecksumOk;
    assert [PLUS] + [] == [PLUS];
  }

  lemma {:induction false} VerdictIsExplained(size: nat, rejected: seq<Attempt>, tail: seq<byte>,
                                              noise: seq<byte>, restarts: seq<seq<byte>>, rx: Rx, s: seq<byte>)
    returns (attempts: seq<Attempt>)
    requires size >= 1 && AllRejected(size, rejected) && InProgress(size, tail, noise, restarts, rx)
    requires rx.SecondDigit? && s != []
    ensures var o := Receive(size, rx, s);
            Explains(size, |rejected|, attempts, Stream(size, rejected) + tail + s[..o.consumed], o)
    decreases |s|, 0
  {
    hide StrHexToUintn, InProgress, Stream, Explains, ChecksumOk, Receive, AttemptBytes;
    var a := CompleteAttempt(size, tail, noise, restarts, rx, s[0]);
    VerdictUnfolds(size, rx, s);
    if Good(a) {
      attempts := rejected + [a];
      hide AllRejected, WellFormed;
      ExplainsDelivery(size, rejected, a);
      assert Stream(size, rejected) + tail + s[..1] == Stream(size, rejected) + (tail + [s[0]]);
    } else {
      attempts := ReceptionIsExplained(size, rejected + [a], [], [], [], Hunting, s[1..]);
      hide AllRejected, WellFormed;
      NakIsExplained(size, rejected, a, tail, s, attempts);
    }
  }

  lemma {:induction false} NakIsExplained(size: nat, rejected: seq<Attempt>, a: Attempt, tail: seq<byte>, s: seq<byte>,
                                          attempts: seq<Attempt>)
    requires s != [] && AttemptBytes(size, a) == tail + [s[0]]
    requires var o := Receive(size, Hunting, s[1..]);
             Explains(size, |rejected| + 1, attempts, Stream(size, rejected + [a]) + [] + s[1..][..o.consumed], o)
    ensures var o := Receive(size, Hunting, s[1..]);
            Explains(size, |rejected|, attempts, Stream(size, rejected) + tail + s[..1 + o.consumed], After([MINUS], 1, o))
  {
    var o, whole := Receive(size, Hunting, s[1..]), Stream(size, rejected);
    StreamSnoc(size, rejected, a);
    hide Receive, Stream, Explains, AttemptBytes;
    MoveOneByte(whole, tail, s, o.consumed);
    assert whole + (tail + [s[0]]) + [] == whole + (tail + [s[0]]);
    ExplainsAfterNak(size, |rejected|, attempts, whole + tail + s[..1 + o.consumed], o);
  }

  /** A reception from the beginning, explained. */
  lemma {:induction false} DeliveryIsExplained(size: nat, s: seq<byte>, payload: seq<byte>, naks: nat) returns (attempts: seq<Attempt>)
    requires size >= 1
    requires var o := Receive(size, Hunting, s);
             o.rx == Done(payload) && o.replies == Repeat(MINUS, naks) + [PLUS]
    ensures Delivers(size, attempts, payload) && |attempts| == naks + 1 && Stream(size, attempts) <= s
  {
    hide Receive, Delivers, Stream, InProgress, AllRejected;
    var o := Receive(size, Hunting, s);
    attempts := FromTheBeginning(size, s);
    assert |o.replies| == naks + 1;
  }

  lemma {:induction false} FromTheBeginning(size: nat, s: seq<byte>) returns (attempts: seq<Attempt>)
    requires size >= 1
    ensures var o := Receive(size, Hunting, s);
            Explains(size, 0, attempts, s[..o.consumed], o)
  {
    attempts := ReceptionIsExplained(size, [], [], [], [], Hunting, s);
    var o := Receive(size, Hunting, s);
    assert Stream(size, []) + [] + s[..o.consumed] == s[..o.consumed];
    hide Receive, Stream, Explains;
  }

  /** The exact language of ReceivePacket: it returns `payload` after sending `naks` times '-'
      if and only if the stream begins with `naks` rejected attempts and one good attempt
      that carries `payload`. */
  lemma {:induction false} ReceivesExactly(size: nat, s: seq<byte>, payload: seq<byte>, naks: nat)
    requires size >= 1
    ensures (exists n :: Receive(size, Hunting, s) == Reception(Done(payload), Repeat(MINUS, naks) + [PLUS], n))
            <==> (exists attempts :: Delivers(size, attempts, payload) && |attempts| == naks + 1
                                     && Stream(size, attempts) <= s)
  {
    hide Receive, Delivers, Stream;
    var o := Receive(size, Hunting, s);
    if o.rx == Done(payload) && o.replies == Repeat(MINUS, naks) + [PLUS] {
      var attempts := DeliveryIsExplained(size, s, payload, naks);
    }
    forall attempts | Delivers(size, attempts, payload) && |attempts| == naks + 1 && Stream(size, attempts) <= s
      ensures exists n :: Receive(size, Hunting, s) == Reception(Done(payload), Repeat(MINUS, naks) + [PLUS], n)
    {
      var bytes := Stream(size, attempts);
      assert s == bytes + s[|bytes|..];
      DeliveryIsReceived(size, attempts, payload, s[|bytes|..]);
    }
  }

  /** While ReceivePacket has not returned, it has consumed everything and sent exactly one '-' for
      each attempt it rejected. */
  lemma {:induction false} WaitsExactly(size: nat, s: seq<byte>)
    requires size >= 1 && !Receive(size, Hunting, s).rx.Done?
    ensures exists attempts :: AllRejected(size, attempts) && Stream(size, attempts) <= s
                               && Receive(size, Hunting, s).replies == Repeat(MINUS, |attempts|)
  {
    hide Receive, Delivers, Stream, InProgress, AllRejected;
    var o := Receive(size, Hunting, s);
    var attempts := FromTheBeginning(size, s);
    assert s[..o.consumed] == s;
    assert AllRejected(size, attempts) && Stream(size, attempts) <= s && o.replies == Repeat(MINUS, |attempts|);
  }
}
