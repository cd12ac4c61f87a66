/** qXfer:libraries:read: a listing handed out piece by piece, its position kept in globals. */
module GdbLibraryList {
  import opened Basics
  import opened GdbBytes
  import opened GdbPacket
  import opened GdbEscape
  import GdbMemory

  const EINVALIDARG: byte := 31
  const XFER_BUFFER_SIZE: nat := 2000

  // "<library-list>\n" and "</library-list>\n"
  const HEADER: seq<byte> :=
    [0x3C, 0x6C, 0x69, 0x62, 0x72, 0x61, 0x72, 0x79, 0x2D, 0x6C, 0x69, 0x73, 0x74, 0x3E, 0x0A]
  const FOOTER: seq<byte> :=
    [0x3C, 0x2F, 0x6C, 0x69, 0x62, 0x72, 0x61, 0x72, 0x79, 0x2D, 0x6C, 0x69, 0x73, 0x74, 0x3E, 0x0A]

  // "  <library name=\""
  const LINE_START: seq<byte> :=
    [0x20, 0x20, 0x3C, 0x6C, 0x69, 0x62, 0x72, 0x61, 0x72, 0x79, 0x20, 0x6E, 0x61, 0x6D, 0x65, 0x3D, 0x22]

  /** What AsciiSPrint leaves in the print buffer: a C string that begins as its format does, cut off
      at the size of the buffer. */
  predicate IsPrinted(s: seq<byte>)
  {
    LINE_START <= s && NUL !in s && |s| < XFER_BUFFER_SIZE
  }

  type Printed = s: seq<byte> | IsPrinted(s) witness LINE_START

  /** A slot of the debug image table. `text` is the line printed for an image that has a symbol
      file name. */
  datatype Image = Empty | Image(normal: bool, loaded: bool, text: Option<Printed>)

  /** An entry is listed when it has a line and the line was not cut off. */
  predicate Eligible(i: Image)
  {
    && i.Image? && i.normal && i.loaded && i.text.Some?
    && |i.text.value| != 0 && |i.text.value| != XFER_BUFFER_SIZE - 1
  }

  /** The globals: offset expected next, table index, and cursor (None is a NULL table). */
  datatype Position = Position(offset: nat, entry: nat, cursor: Option<nat>)

  type Table = Option<seq<Image>>

  function NextEligible(images: seq<Image>, k: nat): (n: nat)
    requires k <= |images|
    ensures k <= n <= |images|
    ensures n < |images| ==> Eligible(images[n])
    decreases |images| - k
  {
    if k == |images| || Eligible(images[k]) then k else NextEligible(images, k + 1)
  }

  /** The cursor walks with the index, inside the table. */
  predicate InTable(table: Table, p: Position)
  {
    p.cursor.Some? ==> table.Some? && p.cursor == Some(p.entry) && p.entry <= |table.value|
  }

  /** The escaped text and its NUL fit gOutBuffer. */
  predicate Fits(text: seq<byte>)
  {
    |Escape(text)| < GdbMemory.MAX_BUF_SIZE
  }

  /** One request: the new position and the payload of the reply, or a write past gOutBuffer. */
  datatype Handled = Overrun | Handled(position: Position, payload: seq<byte>)

  function Respond(p: Position, text: seq<byte>): Handled
  {
    if Fits(text) then Handled(p, Escape(text)) else Overrun
  }

  function Call(table: Table, p: Position, offset: nat): (r: Handled)
    requires offset == p.offset && offset != 0 ==> InTable(table, p)
  {
    if offset != p.offset then Handled(p.(offset := 0), GdbMemory.ErrorPacket(EINVALIDARG))
    else if offset == 0 then
      Respond(Position(1 + |HEADER|, 0, if table.Some? then Some(0) else None), HEADER)
    else if p.cursor.None? then Respond(p.(offset := 0), FOOTER)
    else
      var k := NextEligible(table.value, p.entry);
      if k == |table.value| then Respond(Position(0, k, Some(k)), FOOTER)
      else
        var text := table.value[k].text.value;
        Respond(Position(p.offset + 1 + |text|, k + 1, Some(k + 1)), text)
  }

  // ----- the listing in one piece

  function Lines(images: seq<Image>, k: nat): (l: seq<seq<byte>>)
    requires k <= |images|
    decreases |images| - k
  {
    if k == |images| then []
    else if Eligible(images[k]) then [images[k].text.value] + Lines(images, k + 1)
    else Lines(images, k + 1)
  }

  function AllLines(table: Table): seq<seq<byte>>
  {
    if table.Some? then Lines(table.value, 0) else []
  }

  function Pieces(table: Table): seq<seq<byte>>
  {
    [HEADER] + AllLines(table) + [FOOTER]
  }

  function Concat(pieces: seq<seq<byte>>): seq<byte>
  {
    if pieces == [] then [] else pieces[0] + Concat(pieces[1..])
  }

  function Escaped(pieces: seq<seq<byte>>): (e: seq<seq<byte>>)
    ensures |e| == |pieces| && forall i :: 0 <= i < |e| ==> e[i] == Escape(pieces[i])
  {
    seq(|pieces|, i requires 0 <= i < |pieces| => Escape(pieces[i]))
  }

  function Unescaped(payloads: seq<seq<byte>>): (u: seq<seq<byte>>)
    ensures |u| == |payloads| && forall i :: 0 <= i < |u| ==> u[i] == Unescape(payloads[i])
  {
    seq(|payloads|, i requires 0 <= i < |payloads| => Unescape(payloads[i]))
  }

  // ----- runs

  /** The replies so far, or a request that was not answered. */
  datatype Listing = BrokenOff | Listing(position: Position, payloads: seq<seq<byte>>)

  /** Requests at the given offsets, one after the other. */
  ghost function Run(table: Table, p: Position, offsets: seq<nat>): (r: Listing)
    requires p.offset != 0 ==> InTable(table, p)
    decreases |offsets|
  {
    if offsets == [] then Listing(p, [])
    else
      match Call(table, p, offsets[0])
      case Overrun => BrokenOff
      case Handled(p', payload) =>
        match Run(table, p', offsets[1..])
        case BrokenOff => BrokenOff
        case Listing(p'', payloads) => Listing(p'', [payload] + payloads)
  }

  /** What a debugger has counted after `n` replies: the characters of each piece, and one for its
      type. */
  function Counted(pieces: seq<seq<byte>>, n: nat): (c: nat)
    requires n <= |pieces|
  {
    if n == 0 then 0 else Counted(pieces, n - 1) + |pieces[n - 1]| + 1
  }

  lemma {:induction false} CountedCons(first: seq<byte>, rest: seq<seq<byte>>, n: nat)
    requires n <= |rest|
    ensures Counted([first] + rest, n + 1) == |first| + 1 + Counted(rest, n)
  {
    var all := [first] + rest;
    if n == 0 {
      assert Counted(all, 1) == Counted(all, 0) + |all[0]| + 1;
    } else {
      CountedCons(first, rest, n - 1);
      assert all[n] == rest[n - 1];
    }
  }

  /** The offsets of the first `n` requests of a debugger that starts at `base` and counts for itself. */
  function Asked(base: nat, pieces: seq<seq<byte>>, n: nat): (offsets: seq<nat>)
    requires n <= |pieces|
    ensures |offsets| == n && forall k :: 0 <= k < n ==> offsets[k] == base + Counted(pieces, k)
  {
    seq(n, k requires 0 <= k < n => base + Counted(pieces, k))
  }

  lemma {:induction false} AskedCons(base: nat, first: seq<byte>, rest: seq<seq<byte>>, n: nat)
    requires 0 < n <= |rest| + 1
    ensures Asked(base, [first] + rest, n)[0] == base
    ensures Asked(base, [first] + rest, n)[1..] == Asked(base + 1 + |first|, rest, n - 1)
  {
    var a, b := Asked(base, [first] + rest, n)[1..], Asked(base + 1 + |first|, rest, n - 1);
    forall k | 0 <= k < n - 1
      ensures a[k] == b[k]
    {
      CountedCons(first, rest, k);
    }
  }

  /** The first `n` pieces fit. */
  ghost predicate AllFit(pieces: seq<seq<byte>>, n: nat)
    requires n <= |pieces|
  {
    forall k :: 0 <= k < n ==> Fits(pieces[k])
  }

  lemma {:induction false} AllFitCons(first: seq<byte>, rest: seq<seq<byte>>, n: nat)
    requires 0 < n <= |rest| + 1
    ensures AllFit([first] + rest, n) <==> Fits(first) && AllFit(rest, n - 1)
  {
    hide Fits;
    var all := [first] + rest;
    assert all[0] == first && forall k :: 0 <= k < n - 1 ==> all[k + 1] == rest[k];
    if AllFit(all, n) {
      forall k | 0 <= k < n - 1
        ensures Fits(rest[k])
      {
        assert all[k + 1] == rest[k];
      }
    }
  }

  lemma {:induction false} LinesFromNext(images: seq<Image>, k: nat)
    requires k <= |images|
    ensures var n := NextEligible(images, k);
            Lines(images, k) == if n == |images| then [] else [images[n].text.value] + Lines(images, n + 1)
    decreases |images| - k
  {
    if k < |images| && !Eligible(images[k]) {
      LinesFromNext(images, k + 1);
    }
  }

  /** The requests of a debugger that counts from `p.offset` on are answered with the first `n` pieces
      if and only if these fit; the stub then expects the offset the debugger has counted, and 0 after
      the last piece. */
  ghost predicate Lists(table: Table, p: Position, pieces: seq<seq<byte>>, n: nat)
    requires p.offset != 0 ==> InTable(table, p)
    requires n <= |pieces|
  {
    var r := Run(table, p, Asked(p.offset, pieces, n));
    && (r.Listing? <==> AllFit(pieces, n))
    && (r.Listing? ==> r.payloads == Escaped(pieces)[..n])
    && (r.Listing? ==> r.position.offset == if n == |pieces| then 0 else p.offset + Counted(pieces, n))
  }

  /** From a position inside the listing: the remaining lines, once each and in order, then the
      footer. */
  ghost predicate ListsRest(images: seq<Image>, p: Position, n: nat)
    requires p.offset != 0 && p.cursor == Some(p.entry) && p.entry <= |images|
    requires n <= |Lines(images, p.entry)| + 1
  {
    Lists(Some(images), p, Lines(images, p.entry) + [FOOTER], n)
  }

  lemma {:induction false} RestOfListing(images: seq<Image>, p: Position, n: nat)
    requires p.offset != 0 && p.cursor == Some(p.entry) && p.entry <= |images|
    requires n <= |Lines(images, p.entry)| + 1
    ensures ListsRest(images, p, n)
    decreases n
  {
    var k := NextEligible(images, p.entry);
    LinesFromNext(images, p.entry);
    hide NextEligible, Lines, ListsRest;
    if n == 0 {
      RestBegins(images, p);
    } else if k < |images| {
      RestOfListing(images, AfterEntry(images, p, k), n - 1);
      RestContinues(images, p, k, n);
    } else {
      RestEnds(images, p);
    }
  }

  lemma {:induction false} RestBegins(images: seq<Image>, p: Position)
    requires p.offset != 0 && p.cursor == Some(p.entry) && p.entry <= |images|
    ensures ListsRest(images, p, 0)
  {
    hide Lines, Lists;
    NothingListed(Some(images), p, Lines(images, p.entry) + [FOOTER]);
  }

  /** The position after the reply for entry `k`. */
  function AfterEntry(images: seq<Image>, p: Position, k: nat): Position
    requires k < |images| && Eligible(images[k])
  {
    Position(p.offset + 1 + |images[k].text.value|, k + 1, Some(k + 1))
  }

  lemma {:induction false} RestContinues(images: seq<Image>, p: Position, k: nat, n: nat)
    requires p.offset != 0 && p.cursor == Some(p.entry) && p.entry <= |images|
    requires k == NextEligible(images, p.entry) < |images| && 0 < n <= |Lines(images, k + 1)| + 2
    requires Lines(images, p.entry) == [images[k].text.value] + Lines(images, k + 1)
    requires ListsRest(images, AfterEntry(images, p, k), n - 1)
    ensures ListsRest(images, p, n)
  {
    var text, tail, p' := images[k].text.value, Lines(images, k + 1), AfterEntry(images, p, k);
    hide Escape, NextEligible, Fits, Lines, Lists, Run, Respond, IsPrinted;
    assert Call(Some(images), p, p.offset) == Respond(p', text);
    hide Call, Eligible;
    RunCons(Some(images), p, n, p', text, tail + [FOOTER]);
    ConsSnoc(text, tail, FOOTER);
  }

  lemma {:induction false} RestEnds(images: seq<Image>, p: Position)
    requires p.offset != 0 && p.cursor == Some(p.entry) && p.entry <= |images|
    requires NextEligible(images, p.entry) == |images| && Lines(images, p.entry) == []
    ensures ListsRest(images, p, 1)
  {
    hide Escape, NextEligible, Fits, Lines, Lists, Run, Respond;
    FooterEnds(Some(images), p, Position(0, |images|, Some(|images|)));
    NoLines(FOOTER);
  }

  lemma NoLines(last: seq<byte>)
    ensures [] + [last] == [last]
  {
  }

  lemma ConsSnoc(first: seq<byte>, lines: seq<seq<byte>>, last: seq<byte>)
    ensures [first] + lines + [last] == [first] + (lines + [last])
  {
  }

  lemma {:induction false} NothingListed(table: Table, p: Position, pieces: seq<seq<byte>>)
    requires p.offset != 0 ==> InTable(table, p)
    requires pieces != []
    ensures Lists(table, p, pieces, 0)
  {
    assert Run(table, p, []) == Listing(p, []);
  }

  /** One request before `n - 1` others. */
  lemma {:induction false} RunCons(table: Table, p: Position, n: nat, p': Position, text: seq<byte>, rest: seq<seq<byte>>)
    requires p.offset != 0 ==> InTable(table, p)
    requires p'.offset != 0 ==> InTable(table, p')
    requires 0 < n <= |rest| + 1 && Call(table, p, p.offset) == Respond(p', text)
    requires p'.offset == p.offset + 1 + |text| && Lists(table, p', rest, n - 1)
    ensures Lists(table, p, [text] + rest, n)
  {
    hide Escape, Fits, Call, Run, AllFit, Asked, Counted, Escaped, Respond;
    RunStep(table, p, n, p', text, rest);
    AllFitCons(text, rest, n);
    EscapedCons(text, rest, n);
    CountedCons(text, rest, n - 1);
  }

  lemma {:induction false} RunStep(table: Table, p: Position, n: nat, p': Position, text: seq<byte>, rest: seq<seq<byte>>)
    requires p.offset != 0 ==> InTable(table, p)
    requires p'.offset != 0 ==> InTable(table, p')
    requires 0 < n <= |rest| + 1 && Call(table, p, p.offset) == Respond(p', text) && p'.offset == p.offset + 1 + |text|
    ensures var next := Run(table, p', Asked(p'.offset, rest, n - 1));
            Run(table, p, Asked(p.offset, [text] + rest, n)) ==
              if !Fits(text) || next.BrokenOff? then BrokenOff
              else Listing(next.position, [Escape(text)] + next.payloads)
  {
    hide Escape, Fits, Run, Asked;
    AskedCons(p.offset, text, rest, n);
    RunUnfolds(table, p, Asked(p.offset, [text] + rest, n));
    hide Call;
  }

  lemma {:induction false} RunUnfolds(table: Table, p: Position, offsets: seq<nat>)
    requires p.offset != 0 ==> InTable(table, p)
    requires offsets != []
    ensures Run(table, p, offsets) ==
            match Call(table, p, offsets[0])
            case Overrun => BrokenOff
            case Handled(q, payload) =>
              match Run(table, q, offsets[1..])
              case BrokenOff => BrokenOff
              case Listing(q', payloads) => Listing(q', [payload] + payloads)
  {
  }

  /** The last request. */
  lemma {:induction false} FooterEnds(table: Table, p: Position, p': Position)
    requires p.offset != 0 && InTable(table, p) && p'.offset == 0 && Call(table, p, p.offset) == Respond(p', FOOTER)
    ensures Lists(table, p, [FOOTER], 1)
  {
    var offsets := Asked(p.offset, [FOOTER], 1);
    assert Counted([FOOTER], 0) == 0 && offsets[0] == p.offset && offsets[1..] == [];
    RunUnfolds(table, p, offsets);
    assert Run(table, p', []) == Listing(p', []);
    hide Escape, Fits, Call, Run, Asked;
    assert [FOOTER][0] == FOOTER;
    assert Escaped([FOOTER])[..1] == [Escape(FOOTER)] + [];
  }

  /** Resumable listing refines one-shot listing: from any state with offset 0, the first `n` requests
      of a debugger that counts for itself are answered with the first `n` of header, each eligible
      entry once in table order, and footer, if and only if these fit the output buffer. The stub then
      expects the offset the debugger has counted, which is 0 again after the footer. */
  lemma {:induction false} ListingIsComplete(table: Table, p: Position, n: nat)
    requires p.offset == 0 && n <= |Pieces(table)|
    ensures var r := Run(table, p, Asked(0, Pieces(table), n));
            && (r.Listing? <==> forall k :: 0 <= k < n ==> Fits(Pieces(table)[k]))
            && (r.Listing? ==> r.payloads == Escaped(Pieces(table))[..n])
            && (r.Listing? ==> r.position.offset == if n == |Pieces(table)| then 0 else Counted(Pieces(table), n))
  {
    var p' := Position(1 + |HEADER|, 0, if table.Some? then Some(0) else None);
    var rest := AllLines(table) + [FOOTER];
    ConsSnoc(HEADER, AllLines(table), FOOTER);
    hide Escape, Lines, NextEligible, Fits, Run, Respond, IsPrinted, Asked;
    if n == 0 {
      NothingListed(table, p, Pieces(table));
    } else {
      HeaderListed(table, p', n - 1);
      assert Call(table, p, 0) == Respond(p', HEADER);
      RunCons(table, p, n, p', HEADER, rest);
    }
  }

  /** What follows the header. */
  lemma {:induction false} HeaderListed(table: Table, p: Position, n: nat)
    requires p.offset != 0 && p.entry == 0 && p.cursor == (if table.Some? then Some(0) else None)
    requires n <= |AllLines(table)| + 1
    ensures Lists(table, p, AllLines(table) + [FOOTER], n)
  {
    hide Escape, Lines, NextEligible, Fits, Run, Respond, IsPrinted, Lists;
    if table.Some? {
      RestOfListing(table.value, p, n);
    } else if n == 1 {
      FooterEnds(table, p, p.(offset := 0));
      NoLines(FOOTER);
    } else {
      NothingListed(table, p, AllLines(table) + [FOOTER]);
    }
  }

  /** The whole listing, for such a debugger. */
  ghost function Whole(table: Table, p: Position): Listing
    requires p.offset == 0
  {
    Run(table, p, Asked(0, Pieces(table), |Pieces(table)|))
  }

  function DataLength(pieces: seq<seq<byte>>, n: nat): nat
    requires n <= |pieces|
  {
    if n == 0 then 0 else DataLength(pieces, n - 1) + |pieces[n - 1]|
  }

  lemma {:induction false} CountedExceedsData(pieces: seq<seq<byte>>, n: nat)
    requires n <= |pieces|
    ensures Counted(pieces, n) == DataLength(pieces, n) + n
  {
    if n > 0 {
      CountedExceedsData(pieces, n - 1);
    }
  }

  /** A debugger whose offset is the data received so far, without the type bytes, is refused after
      the first reply and whenever it has received any. */
  lemma {:induction false} DataOffsetIsRefused(table: Table, p: Position, n: nat)
    requires p.offset == 0 && 0 < n < |Pieces(table)| && Run(table, p, Asked(0, Pieces(table), n)).Listing?
    ensures Run(table, p, Asked(0, Pieces(table), n)).position.offset == DataLength(Pieces(table), n) + n
    ensures var q := Run(table, p, Asked(0, Pieces(table), n)).position;
            Call(table, q, DataLength(Pieces(table), n)) == Handled(q.(offset := 0), [0x45, 0x31, 0x46])
  {
    hide Run, Fits, Escape, Asked;
    ListingIsComplete(table, p, n);
    CountedExceedsData(Pieces(table), n);
    InvalidArgument();
  }

  lemma InvalidArgument()
    ensures GdbMemory.ErrorPacket(EINVALIDARG) == [0x45, 0x31, 0x46]
  {
  }

  // ----- which entries are listed

  /** One slot of the table: listed when it is a normal, loaded image with a line of 1 to 1998
      characters. */
  lemma {:induction false} SlotIsListed(i: Image)
    ensures Lines([i], 0) ==
            match i
            case Empty => []
            case Image(normal, loaded, None) => []
            case Image(normal, loaded, Some(text)) => if normal && loaded && 1 <= |text| <= 1998 then [text] else []
  {
    assert Lines([i], 1) == [];
    assert Lines([i], 0) == if Eligible(i) then [i.text.value] + Lines([i], 1) else Lines([i], 1);
  }

  /** The slots are listed one after the other. */
  lemma {:induction false} SlotsAreListed(a: seq<Image>, b: seq<Image>, k: nat)
    requires k <= |a|
    ensures Lines(a + b, k) == Lines(a, k) + Lines(b, 0)
    decreases |a| - k
  {
    if k == |a| {
      LinesBehind(a, b, 0);
      assert [] + Lines(b, 0) == Lines(b, 0);
    } else {
      SlotsAreListed(a, b, k + 1);
      assert (a + b)[k] == a[k];
      if Eligible(a[k]) {
        assert Lines(a, k) == [a[k].text.value] + Lines(a, k + 1);
        assert Lines(a + b, k) == [a[k].text.value] + Lines(a + b, k + 1);
        hide Lines;
        Assoc([a[k].text.value], Lines(a, k + 1), Lines(b, 0));
      }
    }
  }

  lemma {:induction false} LinesBehind(a: seq<Image>, b: seq<Image>, k: nat)
    requires k <= |b|
    ensures Lines(a + b, |a| + k) == Lines(b, k)
    decreases |b| - k
  {
    if k < |b| {
      LinesBehind(a, b, k + 1);
      assert (a + b)[|a| + k] == b[k];
    }
  }

  /** Every line that is listed fits the output buffer once it is escaped. */
  predicate EveryLineFits(table: Table)
  {
    table.Some? ==> forall i <- table.value :: Eligible(i) ==> Fits(i.text.value)
  }

  lemma {:induction false} LinesFit(images: seq<Image>, k: nat)
    requires k <= |images|
    ensures (forall l <- Lines(images, k) :: Fits(l)) <==>
            forall j :: k <= j < |images| && Eligible(images[j]) ==> Fits(images[j].text.value)
    decreases |images| - k
  {
    hide Fits;
    if k < |images| {
      LinesFit(images, k + 1);
      if Eligible(images[k]) {
        assert Lines(images, k) == [images[k].text.value] + Lines(images, k + 1);
      }
    }
  }

  /** The whole document is handed out if and only if every listed line fits once it is escaped. */
  lemma {:induction false} ListingFitsIff(table: Table, p: Position)
    requires p.offset == 0
    ensures Whole(table, p).Listing? <==> EveryLineFits(table)
  {
    ListingIsComplete(table, p, |Pieces(table)|);
    ShortTexts();
    hide Run, Fits, Escape, Asked;
    PiecesFit(HEADER, AllLines(table), FOOTER);
    if table.Some? {
      LinesFit(table.value, 0);
    }
  }

  lemma {:induction false} PiecesFit(first: seq<byte>, lines: seq<seq<byte>>, last: seq<byte>)
    requires Fits(first) && Fits(last)
    ensures var pieces := [first] + lines + [last];
            (forall k :: 0 <= k < |pieces| ==> Fits(pieces[k])) <==> forall l <- lines :: Fits(l)
  {
    hide Fits;
    var pieces := [first] + lines + [last];
    assert forall l :: l in pieces <==> l == first || l in lines || l == last;
  }

  /** The size test of the source counts a line before it is escaped: a line that passes it may not
      fit, whatever stands around the characters that are escaped. */
  lemma {:induction false} LineCanOverrun(front: seq<byte>, back: seq<byte>)
    requires LINE_START <= front && NUL !in front && NUL !in back && |front| + |back| <= 998
    ensures var text := front + Repeat(STAR, 1000) + back;
            && IsPrinted(text)
            && Eligible(Image(true, true, Some(text))) && !Fits(text)
  {
    var stars := Repeat(STAR, 1000);
    EscapeAppend(front, stars);
    EscapeAppend(front + stars, back);
    EscapedStars(1000);
    hide Escape;
  }

  lemma {:induction false} LinesBegin(images: seq<Image>, k: nat)
    requires k <= |images|
    ensures forall l <- Lines(images, k) :: l != [] && l[0] == 0x20
    decreases |images| - k
  {
    if k < |images| {
      LinesBegin(images, k + 1);
      if Eligible(images[k]) {
        PrintedBegins(images[k].text.value);
        hide IsPrinted;
        assert Lines(images, k) == [images[k].text.value] + Lines(images, k + 1);
      }
    }
  }

  lemma PrintedBegins(text: Printed)
    ensures text != [] && text[0] == 0x20
  {
    assert LINE_START[0] == 0x20;
  }

  /** No reply of a listing begins with its type: 'm', or 'l' for the last. */
  lemma {:induction false} NoReplyHasItsType(table: Table, p: Position, n: nat, k: nat)
    requires p.offset == 0 && k < n <= |Pieces(table)| && Run(table, p, Asked(0, Pieces(table), n)).Listing?
    ensures var r, kind := Run(table, p, Asked(0, Pieces(table), n)), if k == |Pieces(table)| - 1 then 0x6C else 0x6D;
            k < |r.payloads| && !([kind] <= r.payloads[k])
  {
    hide Run, Escape, Fits, Asked, Pieces, Escaped;
    ListingIsComplete(table, p, n);
    PieceBegins(table, k);
    EscapedAt(Pieces(table), n, k);
    TypeByteIsLost(if k == |Pieces(table)| - 1 then 0x6C else 0x6D, Pieces(table)[k]);
  }

  lemma EscapedAt(pieces: seq<seq<byte>>, n: nat, k: nat)
    requires k < n <= |pieces|
    ensures |Escaped(pieces)[..n]| == n && Escaped(pieces)[..n][k] == Escape(pieces[k])
  {
    hide Escape;
  }

  lemma {:induction false} PieceBegins(table: Table, k: nat)
    requires k < |Pieces(table)|
    ensures Pieces(table)[k] != [] && (Pieces(table)[k][0] == 0x20 || Pieces(table)[k][0] == 0x3C)
  {
    if table.Some? {
      LinesBegin(table.value, 0);
    }
    hide Lines;
    PieceIs(HEADER, AllLines(table), FOOTER, k);
  }

  lemma PieceIs(first: seq<byte>, lines: seq<seq<byte>>, last: seq<byte>, k: nat)
    requires k < |[first] + lines + [last]|
    ensures var piece := ([first] + lines + [last])[k];
            piece == first || piece in lines || piece == last
  {
  }

  lemma {:induction false} EscapedStars(n: nat)
    ensures |Escape(Repeat(STAR, n))| == 2 * n
  {
    if n > 0 {
      assert Repeat(STAR, n)[..n - 1] == Repeat(STAR, n - 1);
      EscapedStars(n - 1);
    }
  }

  lemma {:induction false} EscapedCons(first: seq<byte>, rest: seq<seq<byte>>, n: nat)
    requires 0 < n <= |rest| + 1
    ensures Escaped([first] + rest)[..n] == [Escape(first)] + Escaped(rest)[..n - 1]
  {
    hide Escape;
  }

  /** A request at any other offset is an error and leaves a state from which the next requests
      at the running offset produce the whole listing, if its lines fit. */
  lemma {:induction false} MismatchRestarts(table: Table, p: Position, offset: nat)
    requires offset != p.offset
    ensures var c := Call(table, p, offset);
            && c.Handled? && c.payload == [0x45, 0x31, 0x46] && c.position.offset == 0
            && var r := Whole(table, c.position);
               if EveryLineFits(table) then r.Listing? && r.payloads == Escaped(Pieces(table)) else r == BrokenOff
  {
    var q := Call(table, p, offset).position;
    ListingIsComplete(table, q, |Pieces(table)|);
    ListingFitsIff(table, q);
    InvalidArgument();
    hide Run, Escape, Fits, EveryLineFits, Asked;
    assert Escaped(Pieces(table))[..|Pieces(table)|] == Escaped(Pieces(table));
  }

  /** Unescaped and joined, the replies of a listing that fits are the document. */
  lemma {:induction false} ListingIsTheDocument(table: Table, p: Position)
    requires p.offset == 0
    ensures var r := Whole(table, p);
            if EveryLineFits(table)
            then r.Listing? && Concat(Unescaped(r.payloads)) == HEADER + Concat(AllLines(table)) + FOOTER
            else r == BrokenOff
  {
    var pieces := Pieces(table);
    ListingIsComplete(table, p, |pieces|);
    ListingFitsIff(table, p);
    hide Run, Escape, Unescape, AllLines, EveryLineFits, Fits, Concat, Asked;
    assert Escaped(pieces)[..|pieces|] == Escaped(pieces);
    EscapedReadsBack(pieces);
    JoinedPieces(HEADER, AllLines(table), FOOTER);
  }

  lemma {:induction false} JoinedPieces(first: seq<byte>, lines: seq<seq<byte>>, last: seq<byte>)
    ensures Concat([first] + lines + [last]) == first + Concat(lines) + last
  {
    var pieces := [first] + lines + [last];
    assert pieces[1..] == lines + [last];
    assert Concat(pieces) == first + Concat(lines + [last]);
    hide Concat;
    ConcatSnoc(lines, last);
    assert first + (Concat(lines) + last) == first + Concat(lines) + last;
  }

  lemma {:induction false} EscapedReadsBack(pieces: seq<seq<byte>>)
    ensures Unescaped(Escaped(pieces)) == pieces
  {
    hide Escape, Unescape;
    forall i | 0 <= i < |pieces|
      ensures Unescape(Escape(pieces[i])) == pieces[i]
    {
      UnescapeEscape(pieces[i]);
    }
  }

  lemma {:induction false} ConcatSnoc(a: seq<seq<byte>>, b: seq<byte>)
    ensures Concat(a + [b]) == Concat(a) + b
  {
    if a == [] {
      assert a + [b] == [b] && [b][1..] == [];
    } else {
      assert (a + [b])[1..] == a[1..] + [b];
      ConcatSnoc(a[1..], b);
    }
  }

  // ----- the handler

  /** How QxferLibrary ends: it returns, waits for a reply in SendPacket, or has written past
      gOutBuffer. */
  datatype End = Returned | Waits | RanOver

  class Stub {
    var position: Position
    const line: SerialLine
    const retries: nat
    const outBuffer: array<byte>

    constructor (line: SerialLine, retries: nat)
      ensures this.line == line && this.retries == retries && fresh(outBuffer) && outBuffer.Length == GdbMemory.MAX_BUF_SIZE
      ensures position == Position(0, 0, None)
    {
      this.line, this.retries, position := line, retries, Position(0, 0, None);
      outBuffer := new byte[GdbMemory.MAX_BUF_SIZE](_ => 0);
    }

    /** gXferObjectReadResponse on gOutBuffer, for a text without NUL. */
    method Answer(kind: byte, text: seq<byte>) returns (r: Response)
      requires NUL !in text && outBuffer.Length == GdbMemory.MAX_BUF_SIZE
      modifies line, outBuffer
      ensures if Fits(text) then line.Sent(Escape(text), retries) else unchanged(line)
      ensures r.Overran? <==> !Fits(text)
      ensures r.Counted? ==> r.count == |text| + 1
    {
      hide SentOn, Escape;
      r := XferObjectReadResponse(line, outBuffer, retries, kind, text);
    }

    /** The table loop, up to an entry that is listed. */
    method SkipIneligible(table: Table)
      requires InTable(table, position) && position.cursor.Some?
      modifies this`position
      ensures var k := NextEligible(table.value, old(position).entry);
              position == old(position).(entry := k, cursor := Some(k))
    {
      while position.entry < |table.value|
        invariant InTable(table, position) && position.cursor.Some? && position.offset == old(position).offset
        invariant NextEligible(table.value, old(position).entry) == NextEligible(table.value, position.entry)
        decreases |table.value| - position.entry
      {
        if Eligible(table.value[position.entry]) {
          return;
        }
        position := position.(entry := position.entry + 1, cursor := Some(position.cursor.value + 1));
      }
    }

    /** The reply of `c` is on the line, and the position is that of `c` once the call returned. */
    twostate predicate Ends(c: Handled, end: End)
      reads this, line
    {
      && (end.RanOver? <==> c.Overrun?)
      && (if c.Overrun? then line.input == old(line.input) && line.output == old(line.output)
          else line.Sent(c.payload, retries))
      && (end.Returned? ==> position == c.position)
    }

    method QxferLibrary(table: Table, offset: nat) returns (end: End)
      requires outBuffer.Length == GdbMemory.MAX_BUF_SIZE
      requires offset == position.offset && offset != 0 ==> InTable(table, position)
      modifies this`position, line, outBuffer
      ensures Ends(Call(table, old(position), offset), end)
    {
      hide SentOn, Escape, Fits;
      if offset != position.offset {
        var r := SendPacket(line, GdbMemory.ErrorPacket(EINVALIDARG), retries);
        if r.None? {
          return Waits;
        }
        position := position.(offset := 0);
        return Returned;
      }
      if offset == 0 {
        end := Open(table);
      } else {
        end := Continue(table);
      }
    }

    /** A later reply: the next entry, or the end of the list. */
    method Continue(table: Table) returns (end: End)
      requires position.offset != 0 && InTable(table, position) && outBuffer.Length == GdbMemory.MAX_BUF_SIZE
      modifies this`position, line, outBuffer
      ensures Ends(Call(table, old(position), old(position).offset), end)
    {
      hide SentOn, Escape, Fits, NextEligible;
      ghost var c := Call(table, position, position.offset);
      if position.cursor.Some? {
        SkipIneligible(table);
        assert line.input == old(line.input) && line.output == old(line.output);
        if position.entry < |table.value| {
          var text := table.value[position.entry].text.value;
          assert c == Respond(Position(position.offset + 1 + |text|, position.entry + 1, Some(position.entry + 1)), text);
          hide Call, Respond;
          end := ListEntry(text);
          return;
        }
      }
      assert c == Respond(position.(offset := 0), FOOTER);
      hide Call, Respond;
      end := Close();
    }

    /** The first reply: the header; the table is read afresh. */
    method Open(table: Table) returns (end: End)
      requires position.offset == 0 && outBuffer.Length == GdbMemory.MAX_BUF_SIZE
      modifies this`position, line, outBuffer
      ensures Ends(Call(table, old(position), 0), end)
    {
      ShortTexts();
      hide SentOn, Escape, Fits;
      var r := Answer(0x6D, HEADER);
      if r.Waiting? {
        return Waits;
      }
      position := Position(r.count, 0, if table.Some? then Some(0) else None);
      return Returned;
    }

    /** The reply for the entry at the cursor, whose line is `text`. */
    method ListEntry(text: seq<byte>) returns (end: End)
      requires position.cursor.Some? && NUL !in text && outBuffer.Length == GdbMemory.MAX_BUF_SIZE
      modifies this`position, line, outBuffer
      ensures var p := old(position);
              Ends(Respond(Position(p.offset + 1 + |text|, p.entry + 1, Some(p.cursor.value + 1)), text), end)
    {
      hide SentOn, Escape, Fits;
      var r := Answer(0x6D, text);
      if r.Counted? {
        position := Position(position.offset + r.count, position.entry + 1, Some(position.cursor.value + 1));
      }
      end := match r case Overran => RanOver case Waiting => Waits case Counted(_) => Returned;
    }

    /** The last reply: the footer. */
    method Close() returns (end: End)
      requires outBuffer.Length == GdbMemory.MAX_BUF_SIZE
      modifies this`position, line, outBuffer
      ensures Ends(Respond(old(position).(offset := 0), FOOTER), end)
    {
      ShortTexts();
      hide SentOn, Escape, Fits;
      var r := Answer(0x6C, FOOTER);
      if r.Waiting? {
        return Waits;
      }
      position := position.(offset := 0);
      return Returned;
    }
  }

  lemma ShortTexts()
    ensures NUL !in HEADER && Fits(HEADER)
    ensures NUL !in FOOTER && Fits(FOOTER)
  {
    EscapeAtMostDoubles(HEADER);
    EscapeAtMostDoubles(FOOTER);
  }

  lemma {:induction false} EscapeAtMostDoubles(s: seq<byte>)
    ensures |Escape(s)| <= 2 * |s|
  {
    if s != [] {
      EscapeAtMostDoubles(s[..|s| - 1]);
    }
  }
}
