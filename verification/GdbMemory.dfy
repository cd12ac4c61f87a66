/** The `m` and `M` commands: hexadecimal reads and writes of target memory. */
module GdbMemory {
  import opened Basics
  import opened GdbBytes
  import opened GdbNumbers
  import opened GdbPacket
  import opened GdbGrammar
  import opened GdbDelivery

  const ADDRESS_SPACE: nat := 0x1_0000_0000_0000_0000
  const MAX_ADDR_SIZE: nat := 32
  const MAX_LENGTH_SIZE: nat := 32
  const MAX_BUF_SIZE: nat := 2000

  const EBADMEMADDRBUFSIZE: byte := 11  // never reported, see LengthTestsNeverReport
  const EBADMEMLENGBUFSIZE: byte := 12
  const EBADMEMLENGTH: byte := 13
  const EBADMEMDATA: byte := 14
  const EBADMEMDATASIZE: byte := 15

  const OK: seq<byte> := [0x4F, 0x4B]

  function ErrorPacket(n: byte): seq<byte>
  {
    [0x45] + HexByte(n)
  }

  /** Memory gives every address of the flat address space a byte; addresses wrap around. */
  type Memory = map<nat, byte>

  predicate Mapped(mem: Memory)
  {
    forall a: nat :: a < ADDRESS_SPACE ==> a in mem
  }

  function Cell(address: nat, i: nat): (a: nat)
    ensures a < ADDRESS_SPACE
  {
    (address + i) % ADDRESS_SPACE
  }

  lemma CellsAreDistinct(address: nat, i: nat, j: nat)
    requires i < j < i + ADDRESS_SPACE
    ensures Cell(address, i) != Cell(address, j)
  {
  }

  // ----- hexadecimal text

  /** The character at a position of a C string. */
  function At(s: seq<byte>, i: nat): byte
  {
    if i < |s| then s[i] else NUL
  }

  predicate GoodPair(data: seq<byte>, k: nat)
  {
    HexCharToInt(At(data, 2 * k)) >= 0 && HexCharToInt(At(data, 2 * k + 1)) >= 0
  }

  function PairValue(data: seq<byte>, k: nat): byte
    requires GoodPair(data, k)
  {
    HexCharToInt(At(data, 2 * k)) * 16 + HexCharToInt(At(data, 2 * k + 1))
  }

  /** The first pair from `k` on that is not two digits, or `length`. */
  function FirstBad(data: seq<byte>, k: nat, length: nat): (g: nat)
    requires k <= length
    ensures k <= g <= length
    ensures forall i :: k <= i < g ==> GoodPair(data, i)
    ensures g < length ==> !GoodPair(data, g)
    decreases length - k
  {
    if k == length || !GoodPair(data, k) then k else FirstBad(data, k + 1, length)
  }

  /** Write pair after pair until the length is reached or a pair is bad. */
  function Written(mem: Memory, address: nat, data: seq<byte>, k: nat, length: nat): (m: Memory)
    requires k <= length
    decreases length - k
  {
    if k == length || !GoodPair(data, k) then mem
    else Written(mem[Cell(address, k) := PairValue(data, k)], address, data, k + 1, length)
  }

  function LowerHexByte(v: byte): (s: seq<byte>)
    ensures |s| == 2
  {
    [LowerHexDigit(v / 16), LowerHexDigit(v % 16)]
  }

  /** The bytes at `address` as lower-case hexadecimal pairs. */
  function HexDump(mem: Memory, address: nat, length: nat): (s: seq<byte>)
    requires Mapped(mem)
    ensures |s| == 2 * length
  {
    if length == 0 then []
    else HexDump(mem, address, length - 1) + LowerHexByte(mem[Cell(address, length - 1)])
  }

  // ----- what a write does, and its relation to a read

  /** A cell that a write changes belongs to a pair before the first bad one; such a pair lies
      inside the data. */
  lemma {:induction false} WriteKeepsOthers(mem: Memory, address: nat, data: seq<byte>, k: nat, length: nat, c: nat)
    requires Mapped(mem) && k <= length && c in mem
    ensures var m, g := Written(mem, address, data, k, length), FirstBad(data, k, length);
            && m.Keys == mem.Keys
            && (m[c] != mem[c] ==> exists i :: k <= i < g && c == Cell(address, i) && 2 * i + 1 < |data|)
    decreases length - k
  {
    if k < length && GoodPair(data, k) {
      var mem' := mem[Cell(address, k) := PairValue(data, k)];
      WriteKeepsOthers(mem', address, data, k + 1, length, c);
      assert mem'.Keys == mem.Keys;
      assert 2 * k + 1 < |data|;
    }
  }

  /** Every pair before the first bad one has been stored at its own cell. */
  lemma {:induction false} WriteStoresPairs(mem: Memory, address: nat, data: seq<byte>, k: nat, length: nat, i: nat)
    requires Mapped(mem) && k <= length && length - k <= ADDRESS_SPACE && k <= i < FirstBad(data, k, length)
    ensures Cell(address, i) in Written(mem, address, data, k, length)
    ensures Written(mem, address, data, k, length)[Cell(address, i)] == PairValue(data, i)
    decreases length - k
  {
    var c := Cell(address, k);
    var mem' := mem[c := PairValue(data, k)];
    assert c in mem';
    WriteKeepsOthers(mem', address, data, k + 1, length, c);
    if i > k {
      WriteStoresPairs(mem', address, data, k + 1, length, i);
    } else {
      forall j | k < j < length
        ensures Cell(address, j) != c
      {
        CellsAreDistinct(address, k, j);
      }
    }
  }

  lemma {:induction false} DumpPairs(mem: Memory, address: nat, length: nat, k: nat)
    requires Mapped(mem) && k < length
    ensures var s := HexDump(mem, address, length);
            GoodPair(s, k) && PairValue(s, k) == mem[Cell(address, k)]
    decreases length
  {
    if k < length - 1 {
      DumpPairs(mem, address, length - 1, k);
    }
  }

  /** Writing back what was read leaves memory unchanged and meets no bad pair. */
  lemma {:induction false} WriteBackIsIdentity(mem: Memory, address: nat, length: nat, k: nat)
    requires Mapped(mem) && k <= length
    ensures var s := HexDump(mem, address, length);
            Written(mem, address, s, k, length) == mem && FirstBad(s, k, length) == length
    decreases length - k
  {
    if k < length {
      var s, c := HexDump(mem, address, length), Cell(address, k);
      DumpPairs(mem, address, length, k);
      assert mem[c := PairValue(s, k)] == mem;
      WriteBackIsIdentity(mem, address, length, k + 1);
    }
  }

  /** The data of a good write in canonical (lower-case) form. */
  function Canonical(data: seq<byte>, length: nat): (s: seq<byte>)
    requires forall i :: 0 <= i < length ==> GoodPair(data, i)
  {
    if length == 0 then []
    else Canonical(data, length - 1) + LowerHexByte(PairValue(data, length - 1))
  }

  lemma {:induction false} DumpIsCanonical(mem: Memory, address: nat, data: seq<byte>, length: nat)
    requires Mapped(mem)
    requires forall i :: 0 <= i < length ==> GoodPair(data, i)
    requires forall i :: 0 <= i < length ==> mem[Cell(address, i)] == PairValue(data, i)
    ensures HexDump(mem, address, length) == Canonical(data, length)
  {
    if length > 0 {
      DumpIsCanonical(mem, address, data, length - 1);
    }
  }

  /** A read after a good write returns the written data in lower case. */
  lemma {:induction false} ReadAfterWrite(mem: Memory, address: nat, data: seq<byte>, length: nat)
    requires Mapped(mem) && length <= ADDRESS_SPACE && FirstBad(data, 0, length) == length
    ensures var m := Written(mem, address, data, 0, length);
            Mapped(m) && HexDump(m, address, length) == Canonical(data, length)
  {
    WriteKeepsOthers(mem, address, data, 0, length, 0);
    forall i | 0 <= i < length
      ensures Written(mem, address, data, 0, length)[Cell(address, i)] == PairValue(data, i)
    {
      WriteStoresPairs(mem, address, data, 0, length, i);
    }
    DumpIsCanonical(Written(mem, address, data, 0, length), address, data, length);
  }

  // ----- the two commands

  /** What a command does: Overrun where the source scans or copies past the end of a buffer. A
      packet is the C string in gInBuffer. */
  datatype Effect = Overrun | Answer(mem: Memory, payload: seq<byte>)

  /** The texts of a command: address up to ',', then the rest; for `M`, length up to ':'. */
  datatype Texts = Texts(addr: seq<byte>, len: seq<byte>, data: seq<byte>)

  function ReadTexts(packet: seq<byte>): (t: Option<Texts>)
    requires packet != []
    ensures t.Some? ==> |packet| == |t.value.addr| + |t.value.len| + 2
    ensures t.Some? ==> COMMA !in t.value.addr && packet[1..] == t.value.addr + [COMMA] + t.value.len
  {
    var body := packet[1..];
    var i := IndexOf(body, COMMA);
    if i == |body| then None else Some(Texts(body[..i], body[i + 1..], []))
  }

  /** The length and data texts of `M`, from what follows the address. */
  function WithData(addr: seq<byte>, rest: seq<byte>): Option<Texts>
  {
    var j := IndexOf(rest, COLON);
    if j == |rest| then None else Some(Texts(addr, rest[..j], rest[j + 1..]))
  }

  function WriteTexts(packet: seq<byte>): (t: Option<Texts>)
    requires packet != []
    ensures t.Some? ==> |packet| == |t.value.addr| + |t.value.len| + |t.value.data| + 3
    ensures t.Some? ==> COMMA !in t.value.addr && COLON !in t.value.len
    ensures t.Some? ==> ReadTexts(packet) == Some(Texts(t.value.addr, t.value.len + [COLON] + t.value.data, []))
  {
    var r := ReadTexts(packet);
    if r.None? then None
    else
      SplitAt(r.value.len, IndexOf(r.value.len, COLON));
      WithData(r.value.addr, r.value.len)
  }

  /** "m addr,length" */
  function ReadCommand(mem: Memory, readable: nat -> bool, packet: seq<byte>): (e: Effect)
    requires Mapped(mem) && packet != []
  {
    var t := ReadTexts(packet);
    if t.None? || |t.value.addr| >= MAX_ADDR_SIZE then Overrun
    else if |t.value.len| >= MAX_LENGTH_SIZE then Answer(mem, ErrorPacket(EBADMEMLENGTH))
    else
      var address, length := StrHexToUintn(t.value.addr), StrHexToUintn(t.value.len);
      if !readable(address) then Answer(mem, ErrorPacket(EBADMEMDATA))
      else if 2 * length + 1 > MAX_BUF_SIZE then Overrun
      else Answer(mem, HexDump(mem, address, length))
  }

  /** "M addr,length:XX..." */
  function WriteCommand(mem: Memory, packet: seq<byte>): (e: Effect)
    requires packet != []
  {
    var t := WriteTexts(packet);
    if t.None? || |t.value.addr| >= MAX_ADDR_SIZE || |t.value.len| >= MAX_LENGTH_SIZE then Overrun
    else
      var address, length, data := StrHexToUintn(t.value.addr), StrHexToUintn(t.value.len), t.value.data;
      if |data| != 2 * length % ADDRESS_SPACE then Answer(mem, ErrorPacket(EBADMEMDATASIZE))
      else Answer(Written(mem, address, data, 0, length),
                  if FirstBad(data, 0, length) == length then OK else ErrorPacket(EBADMEMDATA))
  }

  function ReadPacket(addr: seq<byte>, length: seq<byte>): seq<byte>
  {
    [0x6D] + addr + [COMMA] + length
  }

  function WritePacket(addr: seq<byte>, length: seq<byte>, data: seq<byte>): seq<byte>
  {
    [0x4D] + addr + [COMMA] + length + [COLON] + data
  }

  /** The effect of every `m` packet with a comma: an address text of 32 characters or more runs past
      its buffer, as does a dump of more than 999 bytes; E0D for a length text that is too long, E0E
      for an unreadable address, and otherwise the memory at the address. */
  lemma {:induction false} ReadPacketParses(mem: Memory, readable: nat -> bool, addr: seq<byte>, len: seq<byte>)
    requires Mapped(mem) && COMMA !in addr
    ensures var a, n := StrHexToUintn(addr), StrHexToUintn(len);
            ReadCommand(mem, readable, ReadPacket(addr, len)) ==
              if |addr| >= 32 then Overrun
              else if |len| >= 32 then Answer(mem, [0x45, 0x30, 0x44])
              else if !readable(a) then Answer(mem, [0x45, 0x30, 0x45])
              else if n > 999 then Overrun
              else Answer(mem, HexDump(mem, a, n))
  {
    ReadTextsOf([0x6D], addr, len);
    ErrorTexts();
    hide StrHexToUintn, HexDump, ErrorPacket, ReadTexts;
  }

  lemma ErrorTexts()
    ensures ErrorPacket(11) == [0x45, 0x30, 0x42] && ErrorPacket(12) == [0x45, 0x30, 0x43]
    ensures ErrorPacket(13) == [0x45, 0x30, 0x44] && ErrorPacket(14) == [0x45, 0x30, 0x45]
    ensures ErrorPacket(15) == [0x45, 0x30, 0x46]
  {
  }

  lemma {:induction false} ReadTextsOf(cmd: seq<byte>, addr: seq<byte>, rest: seq<byte>)
    requires |cmd| == 1 && COMMA !in addr
    ensures ReadTexts(cmd + addr + [COMMA] + rest) == Some(Texts(addr, rest, []))
  {
    var body := (cmd + addr + [COMMA] + rest)[1..];
    assert body == addr + [COMMA] + rest;
    IndexOfIsFirst(addr, COMMA, rest);
    assert body[..|addr|] == addr && body[|addr| + 1..] == rest;
  }

  /** The effect of every `M` packet with its comma and colon: an address or length text of 32
      characters or more runs past its buffer; E0F when the data is not two digits per byte, and
      otherwise the write, answered OK or, after a bad nibble, E0E. */
  lemma {:induction false} WritePacketParses(mem: Memory, addr: seq<byte>, len: seq<byte>, data: seq<byte>)
    requires COMMA !in addr && COLON !in len
    ensures var a, n := StrHexToUintn(addr), StrHexToUintn(len);
            WriteCommand(mem, WritePacket(addr, len, data)) ==
              if |addr| >= 32 || |len| >= 32 then Overrun
              else if |data| != 2 * n % ADDRESS_SPACE then Answer(mem, [0x45, 0x30, 0x46])
              else Answer(Written(mem, a, data, 0, n),
                          if FirstBad(data, 0, n) == n then [0x4F, 0x4B] else [0x45, 0x30, 0x45])
  {
    WriteTextsOf(addr, len, data);
    ErrorTexts();
    hide StrHexToUintn, Written, FirstBad, ErrorPacket, WriteTexts, WritePacket;
  }

  lemma {:induction false} WriteTextsOf(addr: seq<byte>, len: seq<byte>, data: seq<byte>)
    requires COMMA !in addr && COLON !in len
    ensures WriteTexts(WritePacket(addr, len, data)) == Some(Texts(addr, len, data))
  {
    var rest := len + [COLON] + data;
    WriteRegroup(addr, len, data);
    ReadTextsOf([0x4D], addr, rest);
    IndexOfIsFirst(len, COLON, data);
    assert rest[..|len|] == len && rest[|len| + 1..] == data;
  }

  lemma {:induction false} TextsOfRead(packet: seq<byte>)
    requires packet != [] && packet[0] == 0x6D
    ensures ReadTexts(packet).Some? ==> packet == ReadPacket(ReadTexts(packet).value.addr, ReadTexts(packet).value.len)
  {
    hide ReadTexts;
    if ReadTexts(packet).Some? {
      TextsOfCommand(packet);
    }
  }

  lemma {:induction false} TextsOfWrite(packet: seq<byte>)
    requires packet != [] && packet[0] == 0x4D
    ensures var t := WriteTexts(packet);
            t.Some? ==> packet == WritePacket(t.value.addr, t.value.len, t.value.data)
  {
    hide ReadTexts, WriteTexts, WritePacket;
    var t := WriteTexts(packet);
    if t.Some? {
      TextsOfCommand(packet);
      WriteRegroup(t.value.addr, t.value.len, t.value.data);
    }
  }

  lemma {:induction false} TextsOfCommand(packet: seq<byte>)
    requires packet != [] && ReadTexts(packet).Some?
    ensures var t := ReadTexts(packet).value;
            packet == [packet[0]] + t.addr + [COMMA] + t.len
  {
    hide ReadTexts;
    var t := ReadTexts(packet).value;
    assert packet == [packet[0]] + packet[1..];
  }

  lemma WriteRegroup(addr: seq<byte>, len: seq<byte>, data: seq<byte>)
    ensures WritePacket(addr, len, data) == [0x4D] + addr + [COMMA] + (len + [COLON] + data)
  {
  }

  /** An `m` packet stays in the buffers if and only if it has an address text of at most 31
      characters before its comma, and, unless its length text or its address is refused, asks for at
      most 999 bytes. */
  lemma {:induction false} ReadFitsIff(mem: Memory, readable: nat -> bool, packet: seq<byte>)
    requires Mapped(mem) && packet != [] && packet[0] == 0x6D
    ensures ReadCommand(mem, readable, packet).Answer? <==>
            exists addr, len :: packet == ReadPacket(addr, len) && COMMA !in addr && |addr| <= 31
                                && (|len| >= 32 || !readable(StrHexToUintn(addr)) || StrHexToUintn(len) <= 999)
  {
    hide StrHexToUintn, ReadCommand, HexDump, ReadPacket;
    if ReadTexts(packet).Some? {
      var t := ReadTexts(packet).value;
      TextsOfRead(packet);
      ReadPacketParses(mem, readable, t.addr, t.len);
    }
    NoTextsOverrun(mem, readable, packet);
    forall addr, len | packet == ReadPacket(addr, len) && COMMA !in addr
      ensures ReadCommand(mem, readable, packet).Answer? <==>
              |addr| <= 31 && (|len| >= 32 || !readable(StrHexToUintn(addr)) || StrHexToUintn(len) <= 999)
    {
      ReadPacketParses(mem, readable, addr, len);
    }
  }

  lemma {:induction false} NoTextsOverrun(mem: Memory, readable: nat -> bool, packet: seq<byte>)
    requires Mapped(mem) && packet != []
    ensures ReadTexts(packet).None? ==> ReadCommand(mem, readable, packet) == Overrun
    ensures WriteTexts(packet).None? ==> WriteCommand(mem, packet) == Overrun
  {
  }

  /** An `M` packet stays in the buffers if and only if it has an address and a length text of at
      most 31 characters, each ended by its delimiter. */
  lemma {:induction false} WriteFitsIff(mem: Memory, packet: seq<byte>)
    requires Mapped(mem) && packet != [] && packet[0] == 0x4D
    ensures WriteCommand(mem, packet).Answer? <==>
            exists addr, len, data :: packet == WritePacket(addr, len, data) && COMMA !in addr && COLON !in len
                                      && |addr| <= 31 && |len| <= 31
  {
    hide StrHexToUintn, WriteCommand, Written, FirstBad, WritePacket;
    if WriteTexts(packet).Some? {
      var t := WriteTexts(packet).value;
      TextsOfWrite(packet);
      WritePacketParses(mem, t.addr, t.len, t.data);
    }
    NoTextsOverrun(mem, _ => false, packet);
    forall addr, len, data | packet == WritePacket(addr, len, data) && COMMA !in addr && COLON !in len
      ensures WriteCommand(mem, packet).Answer? <==> |addr| <= 31 && |len| <= 31
    {
      WritePacketParses(mem, addr, len, data);
    }
  }

  /** The tests for address and length texts that are too long come after the texts have been
      copied, and are never what is reported: no packet is answered E0B, and no `M` packet E0C. */
  lemma {:induction false} LengthTestsNeverReport(mem: Memory, readable: nat -> bool, packet: seq<byte>)
    requires Mapped(mem) && packet != []
    ensures ReadCommand(mem, readable, packet).Answer? ==>
              ReadCommand(mem, readable, packet).payload != ErrorPacket(EBADMEMADDRBUFSIZE)
    ensures WriteCommand(mem, packet).Answer? ==>
              && WriteCommand(mem, packet).payload != ErrorPacket(EBADMEMADDRBUFSIZE)
              && WriteCommand(mem, packet).payload != ErrorPacket(EBADMEMLENGBUFSIZE)
  {
    hide ReadCommand, WriteCommand, ErrorPacket;
    ReadNeverReports(mem, readable, packet);
    WriteNeverReports(mem, packet);
    ErrorTexts();
  }

  lemma {:induction false} ReadNeverReports(mem: Memory, readable: nat -> bool, packet: seq<byte>)
    requires Mapped(mem) && packet != []
    ensures var e := ReadCommand(mem, readable, packet);
            e.Answer? ==> |e.payload| % 2 == 0 || (|e.payload| == 3 && e.payload[2] > 0x43)
  {
    ErrorTexts();
    hide StrHexToUintn, HexDump, ReadTexts, ErrorPacket;
  }

  lemma {:induction false} WriteNeverReports(mem: Memory, packet: seq<byte>)
    requires packet != []
    ensures var e := WriteCommand(mem, packet);
            e.Answer? ==> |e.payload| == 2 || (|e.payload| == 3 && e.payload[2] > 0x43)
  {
    ErrorTexts();
    hide StrHexToUintn, Written, FirstBad, WriteTexts, ErrorPacket;
  }

  /** "M" with an address of 500 zeros and ",1:00". */
  lemma {:induction false} LongAddressOverruns(mem: Memory)
    ensures WriteCommand(mem, WritePacket(Repeat(0x30, 500), [0x31], [0x30, 0x30])) == Overrun
  {
    hide StrHexToUintn, WriteCommand, WritePacket;
    WritePacketParses(mem, Repeat(0x30, 500), [0x31], [0x30, 0x30]);
  }

  /** Byte `i` of a range, in an address space that ends at 2^64 and begins again. */
  function Address(a: nat, i: nat): nat
  {
    if a + i < 0x1_0000_0000_0000_0000 then a + i else a + i - 0x1_0000_0000_0000_0000
  }

  lemma {:induction false} CellIsAddress(a: nat, i: nat)
    requires a < ADDRESS_SPACE && i < ADDRESS_SPACE
    ensures Cell(a, i) == Address(a, i) < ADDRESS_SPACE
  {
  }

  /** "m" with the texts of address `a` and length `n` is answered with the bytes from `a` on, each as
      two lower-case digits. */
  lemma {:induction false} MemoryIsRead(mem: Memory, readable: nat -> bool, addr: seq<byte>, a: nat, len: seq<byte>, n: nat)
    requires Mapped(mem) && IsHex(addr, a) && IsHex(len, n) && |addr| <= 31 && |len| <= 31
    requires a <= MAX_UINTN && readable(a) && n <= 999
    ensures var r := ReadCommand(mem, readable, [0x6D] + addr + [COMMA] + len);
            && r.Answer? && r.mem == mem && |r.payload| == 2 * n
            && forall i :: 0 <= i < n ==>
                             && Address(a, i) in mem
                             && r.payload[2 * i] == LOWER_DIGITS[mem[Address(a, i)] / 16]
                             && r.payload[2 * i + 1] == LOWER_DIGITS[mem[Address(a, i)] % 16]
  {
    hide StrHexToUintn, ReadCommand, IsHex, HexDump;
    HexIsPlain(addr, a);
    HexIsRead(addr, a, []);
    HexIsRead(len, n, []);
    assert addr + [] == addr && len + [] == len;
    ReadPacketParses(mem, readable, addr, len);
    forall i | 0 <= i < n
      ensures Address(a, i) in mem
      ensures HexDump(mem, a, n)[2 * i] == LOWER_DIGITS[mem[Address(a, i)] / 16]
      ensures HexDump(mem, a, n)[2 * i + 1] == LOWER_DIGITS[mem[Address(a, i)] % 16]
    {
      CellIsAddress(a, i);
      DumpDigits(mem, a, n, i);
    }
  }

  lemma {:induction false} DumpDigits(mem: Memory, address: nat, length: nat, k: nat)
    requires Mapped(mem) && k < length
    ensures var s, v := HexDump(mem, address, length), mem[Cell(address, k)];
            s[2 * k] == LOWER_DIGITS[v / 16] && s[2 * k + 1] == LOWER_DIGITS[v % 16]
    decreases length
  {
    var v := mem[Cell(address, k)];
    DigitTables(v / 16);
    DigitTables(v % 16);
    hide LowerHexDigit;
    if k < length - 1 {
      DumpDigits(mem, address, length - 1, k);
    }
  }

  /** `data` writes the bytes, two digits each. */
  predicate WritesBytes(data: seq<byte>, values: seq<byte>)
  {
    && |data| == 2 * |values|
    && forall i :: 0 <= i < |values| ==> IsDigit(data[2 * i], values[i] / 16) && IsDigit(data[2 * i + 1], values[i] % 16)
  }

  /** "M" with the texts of address `a`, of the number of bytes, and of the bytes, is answered OK, stores
      each byte at its address and changes no other. */
  lemma {:induction false} MemoryIsWritten(mem: Memory, addr: seq<byte>, a: nat, len: seq<byte>, data: seq<byte>, values: seq<byte>)
    requires Mapped(mem) && IsHex(addr, a) && IsHex(len, |values|) && |addr| <= 31 && |len| <= 31
    requires a <= MAX_UINTN && 2 * |values| < ADDRESS_SPACE && WritesBytes(data, values)
    ensures var e := WriteCommand(mem, [0x4D] + addr + [COMMA] + len + [COLON] + data);
            && e.Answer? && e.payload == [0x4F, 0x4B] && e.mem.Keys == mem.Keys
            && (forall i :: 0 <= i < |values| ==> Address(a, i) in e.mem && e.mem[Address(a, i)] == values[i])
            && (forall c :: c in mem && (forall i :: 0 <= i < |values| ==> c != Address(a, i)) ==> e.mem[c] == mem[c])
  {
    var n := |values|;
    hide StrHexToUintn, WriteCommand, IsHex, Written, WritesBytes, Address;
    HexIsPlain(addr, a);
    HexIsPlain(len, n);
    HexIsRead(addr, a, []);
    HexIsRead(len, n, []);
    assert addr + [] == addr && len + [] == len;
    WritePacketParses(mem, addr, len, data);
    AllPairsGood(data, values, n);
    StoresExactly(mem, a, data, values);
  }

  lemma {:induction false} PairIsValue(data: seq<byte>, values: seq<byte>, i: nat)
    requires WritesBytes(data, values) && i < |values|
    ensures GoodPair(data, i) && PairValue(data, i) == values[i]
  {
    DigitIsRead(data[2 * i], values[i] / 16);
    DigitIsRead(data[2 * i + 1], values[i] % 16);
    hide IsDigit, HexCharToInt;
  }

  lemma {:induction false} AllPairsGood(data: seq<byte>, values: seq<byte>, n: nat)
    requires WritesBytes(data, values) && n == |values|
    ensures FirstBad(data, 0, n) == n && |data| == 2 * n
  {
    hide GoodPair;
    var g := FirstBad(data, 0, n);
    hide FirstBad;
    if g < n {
      PairIsValue(data, values, g);
    }
  }

  lemma {:induction false} StoresExactly(mem: Memory, a: nat, data: seq<byte>, values: seq<byte>)
    requires Mapped(mem) && a < ADDRESS_SPACE && |values| < ADDRESS_SPACE && WritesBytes(data, values)
    ensures var m := Written(mem, a, data, 0, |values|);
            && m.Keys == mem.Keys
            && (forall i :: 0 <= i < |values| ==> Address(a, i) in m && m[Address(a, i)] == values[i])
            && (forall c :: c in mem && (forall i :: 0 <= i < |values| ==> c != Address(a, i)) ==> m[c] == mem[c])
  {
    var n := |values|;
    var m := Written(mem, a, data, 0, n);
    hide Written, WritesBytes, Cell, Address, FirstBad, GoodPair, PairValue;
    AllPairsGood(data, values, n);
    forall i | 0 <= i < n
      ensures Cell(a, i) == Address(a, i) && Address(a, i) in m && m[Address(a, i)] == values[i]
    {
      CellIsAddress(a, i);
      PairIsValue(data, values, i);
      WriteStoresPairs(mem, a, data, 0, n, i);
    }
    WriteKeepsOthers(mem, a, data, 0, n, Cell(a, 0));
    forall c | c in mem && (forall i :: 0 <= i < n ==> c != Address(a, i))
      ensures m[c] == mem[c]
    {
      WriteKeepsOthers(mem, a, data, 0, n, c);
    }
  }

  /** Sending the reply of an `m` back in an `M` with the same address and length texts is
      answered OK and leaves memory unchanged. */
  lemma {:induction false} ReadThenWriteBack(mem: Memory, readable: nat -> bool, addr: seq<byte>, len: seq<byte>)
    requires Mapped(mem) && COMMA !in addr && COLON !in len && |addr| < MAX_ADDR_SIZE && |len| < MAX_LENGTH_SIZE
    requires readable(StrHexToUintn(addr)) && StrHexToUintn(len) <= 999
    ensures var r := ReadCommand(mem, readable, ReadPacket(addr, len));
            && r.Answer? && r.mem == mem && |r.payload| == 2 * StrHexToUintn(len)
            && WriteCommand(mem, WritePacket(addr, len, r.payload)) == Answer(mem, OK)
  {
    hide StrHexToUintn, HexDump, Written, FirstBad, ReadCommand, WriteCommand, WritePacket;
    ReadPacketParses(mem, readable, addr, len);
    var a, n := StrHexToUintn(addr), StrHexToUintn(len);
    WritePacketParses(mem, addr, len, HexDump(mem, a, n));
    WriteBackIsIdentity(mem, a, n, 0);
  }

  /** The same over the line, into gInBuffer: the `m` packet always arrives; the `M` packet that
      carries the reply back arrives whole if and only if it has at most 1998 characters, or one
      more and a checksum of zero. */
  lemma {:induction false} WriteBackArrivesIff(mem: Memory, readable: nat -> bool, addr: seq<byte>, len: seq<byte>)
    requires Mapped(mem) && Clean(addr) && Clean(len)
    requires COMMA !in addr && COLON !in len && |addr| < MAX_ADDR_SIZE && |len| < MAX_LENGTH_SIZE
    requires readable(StrHexToUintn(addr)) && StrHexToUintn(len) <= 999
    ensures Receive(MAX_BUF_SIZE, Hunting, Frame(ReadPacket(addr, len))).rx == Done(ReadPacket(addr, len))
    ensures ReadCommand(mem, readable, ReadPacket(addr, len)).Answer?
    ensures var packet := WritePacket(addr, len, ReadCommand(mem, readable, ReadPacket(addr, len)).payload);
            var size := |addr| + |len| + 2 * StrHexToUintn(len) + 3;
            Receive(MAX_BUF_SIZE, Hunting, Frame(packet)).rx == Done(packet) <==>
            size <= 1998 || (size == 1999 && Sum(packet) == 0)
  {
    var a, n := StrHexToUintn(addr), StrHexToUintn(len);
    hide StrHexToUintn, HexDump, ReadCommand, Receive, Sum, Frame, Clean, ReadPacket, WritePacket;
    ReadPacketParses(mem, readable, addr, len);
    DumpIsClean(mem, a, n);
    PacketsAreClean(addr, len, HexDump(mem, a, n));
    FrameArrivesIff(MAX_BUF_SIZE, ReadPacket(addr, len));
    FrameArrivesIff(MAX_BUF_SIZE, WritePacket(addr, len, HexDump(mem, a, n)));
  }

  lemma {:induction false} PacketsAreClean(addr: seq<byte>, len: seq<byte>, data: seq<byte>)
    requires Clean(addr) && Clean(len) && Clean(data)
    ensures Clean(ReadPacket(addr, len)) && |ReadPacket(addr, len)| == |addr| + |len| + 2
    ensures Clean(WritePacket(addr, len, data)) && |WritePacket(addr, len, data)| == |addr| + |len| + |data| + 3
  {
  }

  lemma {:induction false} DumpIsClean(mem: Memory, address: nat, length: nat)
    requires Mapped(mem)
    ensures Clean(HexDump(mem, address, length)) && NUL !in HexDump(mem, address, length)
  {
    if length > 0 {
      DumpIsClean(mem, address, length - 1);
    }
  }

  /** For every `M` packet that stays in the buffers: memory keeps its domain, and a byte that changes
      lies in [address, address + length) and before the first bad nibble. */
  lemma {:induction false} WriteStaysInRange(mem: Memory, packet: seq<byte>, c: nat)
    requires Mapped(mem) && packet != [] && c in mem
    ensures WriteCommand(mem, packet).Answer? ==> WriteCommand(mem, packet).mem.Keys == mem.Keys
    ensures WriteCommand(mem, packet).Answer? && WriteCommand(mem, packet).mem[c] != mem[c] ==>
              && WriteTexts(packet).Some?
              && var t := WriteTexts(packet).value;
                 var address, length := StrHexToUintn(t.addr), StrHexToUintn(t.len);
                 exists k :: 0 <= k < FirstBad(t.data, 0, length) <= length && c == Cell(address, k)
  {
    hide StrHexToUintn, Written, FirstBad;
    if WriteTexts(packet).Some? {
      var t := WriteTexts(packet).value;
      WriteKeepsOthers(mem, StrHexToUintn(t.addr), t.data, 0, StrHexToUintn(t.len), c);
    }
  }

  // ----- the handlers

  lemma {:induction false} WriteUnfolds(mem: Memory, address: nat, data: seq<byte>, k: nat, length: nat)
    requires k <= length
    ensures Written(mem, address, data, k, length) ==
            if k == length || !GoodPair(data, k) then mem
            else Written(mem[Cell(address, k) := PairValue(data, k)], address, data, k + 1, length)
    ensures FirstBad(data, k, length) ==
            if k == length || !GoodPair(data, k) then k else FirstBad(data, k + 1, length)
  {
  }

  class Target {
    var mem: Memory
    const line: SerialLine
    const retries: nat
    const readable: nat -> bool

    constructor (line: SerialLine, mem: Memory, retries: nat, readable: nat -> bool)
      ensures this.line == line && this.mem == mem && this.retries == retries && this.readable == readable
    {
      this.line, this.mem, this.retries, this.readable := line, mem, retries, readable;
    }

    method Reply(payload: seq<byte>)
      requires NUL !in payload
      modifies line
      ensures line.Sent(payload, retries)
    {
      var _ := SendPacket(line, payload, retries);
    }

    /** SendError. */
    method ReplyError(n: byte)
      modifies line
      ensures line.Sent(ErrorPacket(n), retries)
    {
      Reply(ErrorPacket(n));
    }

    /** The two characters of a byte, as (c1 << 4) + c2 in a UINT8; None if one is no digit. */
    method ReadPair(newData: seq<byte>, k: nat) returns (value: Option<byte>)
      ensures value == if GoodPair(newData, k) then Some(PairValue(newData, k)) else None
    {
      var c1 := HexCharToInt(At(newData, 2 * k));
      var c2 := HexCharToInt(At(newData, 2 * k + 1));
      if c1 < 0 || c2 < 0 {
        return None;
      }
      return Some((c1 * 16 + c2) % 256);
    }

    method TransferFromInBufToMem(length: nat, address: nat, newData: seq<byte>)
      requires Mapped(mem)
      modifies this`mem, line
      ensures mem == Written(old(mem), address, newData, 0, length)
      ensures line.Sent(if FirstBad(newData, 0, length) == length then OK else ErrorPacket(EBADMEMDATA), retries)
    {
      hide Written, FirstBad, SentOn, ErrorPacket, Cell, GoodPair, PairValue;
      var k := 0;
      while k < length
        invariant k <= length
        invariant Written(old(mem), address, newData, 0, length) == Written(mem, address, newData, k, length)
        invariant FirstBad(newData, 0, length) == FirstBad(newData, k, length)
        invariant line.input == old(line.input) && line.output == old(line.output)
      {
        WriteUnfolds(mem, address, newData, k, length);
        var value := ReadPair(newData, k);
        if value.None? {
          ReplyError(EBADMEMDATA);
          return;
        }
        mem := mem[Cell(address, k) := value.value];
        k := k + 1;
      }
      WriteUnfolds(mem, address, newData, k, length);
      Reply(OK);
    }

    /** The dump is written to a buffer of MAX_BUF_SIZE characters whose end the source does not
        look at; true where it writes past it. */
    method TransferFromMemToOutBufAndSend(length: nat, address: nat) returns (overrun: bool)
      requires Mapped(mem)
      modifies line
      ensures overrun <==> readable(address) && length > 999
      ensures if overrun then unchanged(line)
              else line.Sent(if readable(address) then HexDump(mem, address, length) else ErrorPacket(EBADMEMDATA), retries)
    {
      hide SentOn, HexDump, ErrorPacket;
      if !readable(address) {
        ReplyError(EBADMEMDATA);
        return false;
      }
      var outBuffer := new byte[MAX_BUF_SIZE](_ => 0);
      overrun := DumpTo(outBuffer, length, address);
      if !overrun {
        DumpIsClean(mem, address, length);
        Reply(outBuffer[..2 * length]);
      }
    }

    /** The loop of the dump, and its NUL. */
    method DumpTo(outBuffer: array<byte>, length: nat, address: nat) returns (overrun: bool)
      requires Mapped(mem) && outBuffer.Length == MAX_BUF_SIZE
      modifies outBuffer
      ensures overrun <==> length > 999
      ensures !overrun ==> outBuffer[..2 * length] == HexDump(mem, address, length) && outBuffer[2 * length] == NUL
    {
      hide LowerHexByte;
      var k := 0;
      while k < length
        invariant k <= length && 2 * k <= MAX_BUF_SIZE
        invariant outBuffer[..2 * k] == HexDump(mem, address, k)
      {
        if 2 * k == MAX_BUF_SIZE {
          return true;
        }
        PutHexByte(outBuffer, 2 * k, mem[Cell(address, k)]);
        k := k + 1;
      }
      if 2 * length == MAX_BUF_SIZE {
        return true;
      }
      ghost var dump := outBuffer[..2 * length];
      outBuffer[2 * length] := NUL;
      assert outBuffer[..2 * length] == dump;
      overrun := false;
    }

    method PutHexByte(outBuffer: array<byte>, at: nat, v: byte)
      requires at + 2 <= outBuffer.Length
      modifies outBuffer
      ensures outBuffer[..at + 2] == old(outBuffer[..at]) + LowerHexByte(v)
    {
      outBuffer[at] := LowerHexDigit(v / 16);
      outBuffer[at + 1] := LowerHexDigit(v % 16);
    }

    /** The loop that copies a text up to its delimiter into a buffer on the stack, and its NUL;
        false where it leaves the packet or the buffer. */
    method CopyText(text: seq<byte>, stop: byte, buffer: array<byte>) returns (fits: bool, at: nat)
      modifies buffer
      ensures fits <==> IndexOf(text, stop) < |text| && IndexOf(text, stop) < buffer.Length
      ensures fits ==> at == IndexOf(text, stop) && buffer[..at] == text[..at] && buffer[at] == NUL
    {
      at := 0;
      hide IndexOf;
      while at < |text| && text[at] != stop
        invariant at <= |text| && at <= buffer.Length && stop !in text[..at]
        invariant buffer[..at] == text[..at]
      {
        if at == buffer.Length {
          FirstIsLater(text, stop, at);
          return false, at;
        }
        buffer[at] := text[at];
        at := at + 1;
      }
      FirstIsLater(text, stop, at);
      fits := at < |text| && at < buffer.Length;
      if fits {
        buffer[at] := NUL;
      }
    }

    /** ReadFromMemory; true where the source leaves a buffer, before it does. The source compares the
        address text with the size of its buffer only after the copy, when the answer is known. */
    method ReadFromMemory(packet: seq<byte>) returns (overrun: bool)
      requires Mapped(mem) && packet != []
      modifies line
      ensures var e := ReadCommand(mem, readable, packet);
              && (overrun <==> e.Overrun?)
              && (if overrun then unchanged(line) else line.Sent(e.payload, retries))
    {
      hide StrHexToUintn, HexDump, SentOn, ReadTexts, ErrorPacket;
      var fits, addr, lengthText := CopyAddress(packet);
      if !fits {
        return true;
      }
      assert |addr| < MAX_ADDR_SIZE;  // the source's test for a long address comes here
      if |packet| - |addr| - 2 >= MAX_LENGTH_SIZE {
        ReplyError(EBADMEMLENGTH);
        return false;
      }
      var address, length := StrHexToUintn(addr), StrHexToUintn(lengthText);
      overrun := TransferFromMemToOutBufAndSend(length, address);
    }

    /** The texts of an `M` packet, copied to their buffers; false where the source leaves one. */
    method CopyTexts(packet: seq<byte>) returns (fits: bool, addr: seq<byte>, len: seq<byte>, newData: seq<byte>)
      requires packet != []
      ensures var t := WriteTexts(packet);
              && (fits <==> t.Some? && |t.value.addr| < MAX_ADDR_SIZE && |t.value.len| < MAX_LENGTH_SIZE)
              && (fits ==> t.value == Texts(addr, len, newData))
    {
      addr, len, newData := [], [], [];
      var rest;
      fits, addr, rest := CopyAddress(packet);
      if fits {
        hide ReadTexts, IndexOf;
        var lengthBuffer := new byte[MAX_LENGTH_SIZE](_ => 0);
        var end;
        fits, end := CopyText(rest, COLON, lengthBuffer);
        if fits {
          len, newData := lengthBuffer[..end], rest[end + 1..];
        }
      }
    }

    /** The address text of a command, copied to its buffer, and what follows its comma. */
    method CopyAddress(packet: seq<byte>) returns (fits: bool, addr: seq<byte>, rest: seq<byte>)
      requires packet != []
      ensures var t := ReadTexts(packet);
              && (fits <==> t.Some? && |t.value.addr| < MAX_ADDR_SIZE)
              && (fits ==> t.value == Texts(addr, rest, []))
    {
      hide IndexOf;
      addr, rest := [], [];
      var body := packet[1..];
      var addressBuffer := new byte[MAX_ADDR_SIZE](_ => 0);
      var at;
      fits, at := CopyText(body, COMMA, addressBuffer);
      if fits {
        addr, rest := addressBuffer[..at], body[at + 1..];
      }
    }

    /** WriteToMemory; true where the source leaves a buffer, before it does. */
    method WriteToMemory(packet: seq<byte>) returns (overrun: bool)
      requires Mapped(mem) && packet != []
      modifies this`mem, line
      ensures var e := WriteCommand(old(mem), packet);
              && (overrun <==> e.Overrun?)
              && (if overrun then mem == old(mem) && unchanged(line) else mem == e.mem && line.Sent(e.payload, retries))
    {
      hide StrHexToUintn, Written, FirstBad, SentOn, ErrorPacket, WriteTexts;
      var fits, addr, len, newData := CopyTexts(packet);
      if !fits {
        return true;
      }
      assert |addr| < MAX_ADDR_SIZE && |len| < MAX_LENGTH_SIZE;  // the source's two length tests come here
      overrun := false;
      var address, length := StrHexToUintn(addr), StrHexToUintn(len);
      var messageLength := |packet| - |addr| - |len| - 3;
      if messageLength != 2 * length % ADDRESS_SPACE {
        ReplyError(EBADMEMDATASIZE);
        return;
      }
      TransferFromInBufToMem(length, address, newData);
    }
  }
}
