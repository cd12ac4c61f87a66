/** LogSmbiosData: a fixed structure and an array of strings packed into one SMBIOS record. */
module Smbios {
  import opened Basics

  const LENGTH_AT: nat := 1  // the Length field of the header

  /** A structure that its own Length field describes. */
  predicate IsTemplate(t: seq<byte>)
  {
    |t| >= 4 && 4 <= t[LENGTH_AT] <= |t|
  }

  function Fixed(t: seq<byte>): seq<byte>
    requires IsTemplate(t)
  {
    t[..t[LENGTH_AT]]
  }

  /** C strings: no NUL inside. */
  predicate AreStrings(strings: seq<seq<byte>>)
  {
    forall s <- strings :: 0 !in s
  }

  function Pack(strings: seq<seq<byte>>): seq<byte>
  {
    if strings == [] then [] else Pack(strings[..|strings| - 1]) + strings[|strings| - 1] + [0]
  }

  /** The string set of section 6.1.3 of DMTF DSP0134: strings ended by NUL, then one more NUL;
      two NULs when there is no string. */
  function StringSet(strings: seq<seq<byte>>): seq<byte>
  {
    Pack(strings) + if strings == [] then [0, 0] else [0]
  }

  /** EFI_ERROR on a 64-bit processor. */
  predicate EfiError(status: nat)
  {
    status >= 0x8000_0000_0000_0000
  }

  /** How LogSmbiosData ends: with the status of a failed LocateProtocol, without memory, on a
      missing array, or with the status that the Add service gave for the record. */
  datatype Ending = NotLocated(status: nat) | OutOfResources | NullDereference | Added(record: seq<byte>, status: nat)

  /** CopyMem into a buffer. */
  method CopyMem(dst: array<byte>, at: nat, src: seq<byte>)
    requires at + |src| <= dst.Length
    modifies dst
    ensures dst[..] == old(dst[..at]) + src + old(dst[at + |src|..])
  {
    forall i | 0 <= i < |src| {
      dst[at + i] := src[i];
    }
  }

  /** The sizing loop: exactly the bytes of the record that will be written. */
  method RecordSize(template: seq<byte>, stringPack: Option<seq<seq<byte>>>) returns (size: nat)
    requires IsTemplate(template)
    ensures size == |Fixed(template)| + if stringPack.Some? then |StringSet(stringPack.value)| else 2
  {
    size := template[LENGTH_AT];
    if stringPack.None? {
      size := size + 2;
    } else {
      var strings, index := stringPack.value, 0;
      assert strings[..0] == [];
      while index < |strings|
        invariant index <= |strings|
        invariant size == template[LENGTH_AT] + |Pack(strings[..index])|
      {
        assert strings[..index + 1][..index] == strings[..index];
        size := size + |strings[index]| + 1;
        index := index + 1;
      }
      assert strings[..index] == strings;
      if |strings| == 0 {
        size := size + 1;
      }
      size := size + 1;
    }
  }

  /** LogSmbiosData; `locate` is the status of LocateProtocol and `add` that of the Add service for
      a record. A missing string array passes the sizing but not the copying loop. */
  method LogSmbiosData(locate: nat, havePool: bool, add: seq<byte> -> nat, template: seq<byte>,
                       stringPack: Option<seq<seq<byte>>>)
    returns (ending: Ending)
    requires IsTemplate(template)
    ensures ending == if EfiError(locate) then NotLocated(locate)
                      else if !havePool then OutOfResources
                      else if stringPack.None? then NullDereference
                      else
                        var record := Fixed(template) + StringSet(stringPack.value);
                        Added(record, add(record))
  {
    if EfiError(locate) {
      return NotLocated(locate);
    }
    var size := RecordSize(template, stringPack);
    if !havePool {
      return OutOfResources;
    }
    var record := new byte[size](_ => 0);
    CopyMem(record, 0, template[..template[LENGTH_AT]]);
    if stringPack.None? {
      return NullDereference;
    }
    AppendStrings(record, Fixed(template), stringPack.value);
    var status := add(record[..]);
    return Added(record[..], status);
  }

  /** The copying loop: a position that moves behind each string, and a final NUL at it. */
  method AppendStrings(record: array<byte>, fixed: seq<byte>, strings: seq<seq<byte>>)
    requires record.Length == |fixed| + |StringSet(strings)|
    requires record[..|fixed|] == fixed
    requires forall i :: |fixed| <= i < record.Length ==> record[i] == 0
    modifies record
    ensures record[..] == fixed + StringSet(strings)
  {
    var str, index := |fixed|, 0;
    assert strings[..0] == [];
    while index < |strings|
      invariant index <= |strings|
      invariant str == |fixed| + |Pack(strings[..index])| < record.Length
      invariant record[..str] == fixed + Pack(strings[..index])
      invariant forall i :: str <= i < record.Length ==> record[i] == 0
    {
      PackFits(strings, index);
      hide Pack, StringSet;
      str := AppendString(record, str, strings[index]);
      Assoc(fixed + Pack(strings[..index]), strings[index], [0]);
      Assoc(fixed, Pack(strings[..index]), strings[index] + [0]);
      Assoc(Pack(strings[..index]), strings[index], [0]);
      index := index + 1;
    }
    assert strings[..index] == strings;
    EndStrings(record, str, fixed, strings);
  }

  method EndStrings(record: array<byte>, str: nat, fixed: seq<byte>, strings: seq<seq<byte>>)
    requires record.Length == |fixed| + |StringSet(strings)|
    requires str == |fixed| + |Pack(strings)| && record[..str] == fixed + Pack(strings)
    requires forall i :: str <= i < record.Length ==> record[i] == 0
    modifies record
    ensures record[..] == fixed + StringSet(strings)
  {
    hide Pack;
    record[str] := 0;
    assert record[..] == record[..str] + record[str..];
    assert record[str..] == if strings == [] then [0, 0] else [0];
  }

  method AppendString(record: array<byte>, str: nat, s: seq<byte>) returns (next: nat)
    requires str + |s| + 1 < record.Length
    requires forall i :: str <= i < record.Length ==> record[i] == 0
    modifies record
    ensures next == str + |s| + 1
    ensures record[..next] == old(record[..str]) + s + [0]
    ensures forall i :: next <= i < record.Length ==> record[i] == 0
  {
    ghost var before := record[..];
    CopyMem(record, str, s + [0]);
    next := str + |s| + 1;
    assert record[..] == before[..str] + (s + [0]) + before[next..];
    assert forall i :: next <= i < record.Length ==> record[i] == record[..][i] == before[i];
  }

  lemma {:induction false} PackFits(strings: seq<seq<byte>>, n: nat)
    requires n < |strings|
    ensures Pack(strings[..n + 1]) == Pack(strings[..n]) + strings[n] + [0]
    ensures |Pack(strings[..n + 1])| < |StringSet(strings)|
    decreases |strings| - n
  {
    assert strings[..n + 1][..n] == strings[..n];
    if n + 1 < |strings| {
      PackFits(strings, n + 1);
    } else {
      assert strings[..n + 1] == strings;
    }
  }

  // ----- reading the record

  function NulAt(b: seq<byte>): (i: nat)
    ensures i <= |b| && 0 !in b[..i]
    ensures i < |b| ==> b[i] == 0
  {
    if b == [] || b[0] == 0 then 0 else
      var k := NulAt(b[1..]);
      assert b[..1 + k] == [b[0]] + b[1..][..k];
      1 + k
  }

  /** A reader of string sets: strings up to NUL until an empty one; None if the set is cut off. */
  function ParseSet(b: seq<byte>): Option<seq<seq<byte>>>
    decreases |b|
  {
    if b == [] then None
    else if b[0] == 0 then Some([])
    else
      var i := NulAt(b);
      if i == |b| then None
      else
        var rest := ParseSet(b[i + 1..]);
        if rest.None? then None else Some([b[..i]] + rest.value)
  }

  lemma {:induction false} NulAfter(s: seq<byte>, rest: seq<byte>)
    requires 0 !in s
    ensures NulAt(s + [0] + rest) == |s|
  {
    var b := s + [0] + rest;
    if s != [] {
      assert s[0] in s;
      assert b[1..] == s[1..] + [0] + rest;
      NulAfter(s[1..], rest);
    }
  }

  /** A non-empty string at the front of a set is read as itself. */
  lemma {:induction false} ParseFirst(s: seq<byte>, rest: seq<byte>)
    requires s != [] && 0 !in s
    ensures ParseSet(s + [0] + rest) ==
            match ParseSet(rest) case None => None case Some(r) => Some([s] + r)
  {
    var b := s + [0] + rest;
    assert b[0] == s[0] && s[0] in s;
    NulAfter(s, rest);
    assert b[..|s|] == s && b[|s| + 1..] == rest;
  }

  lemma {:induction false} PackFront(strings: seq<seq<byte>>)
    requires strings != []
    ensures Pack(strings) == strings[0] + [0] + Pack(strings[1..])
    decreases |strings|
  {
    var n := |strings| - 1;
    if n == 0 {
      assert strings[..0] == [] && strings[1..] == [];
    } else {
      PackFront(strings[..n]);
      var s, mid, last := strings[0], strings[1..][..n - 1], strings[n];
      assert strings[..n][1..] == mid;
      assert Pack(strings) == (s + [0] + Pack(mid)) + last + [0];
      assert strings[1..][n - 1] == last;
      assert Pack(strings[1..]) == Pack(mid) + last + [0];
      hide Pack;
      Assoc(s + [0] + Pack(mid), last, [0]);
      Assoc(s + [0], Pack(mid), last + [0]);
      Assoc(Pack(mid), last, [0]);
    }
  }

  function UpToEmpty(strings: seq<seq<byte>>): (r: seq<seq<byte>>)
    ensures |r| <= |strings|
    ensures forall i :: 0 <= i < |r| ==> r[i] == strings[i] && r[i] != []
    ensures |r| < |strings| ==> strings[|r|] == []
  {
    if strings == [] || strings[0] == [] then [] else [strings[0]] + UpToEmpty(strings[1..])
  }

  lemma {:induction false} ParsePacked(strings: seq<seq<byte>>, tail: seq<byte>)
    requires AreStrings(strings) && tail != [] && tail[0] == 0
    ensures ParseSet(Pack(strings) + tail) == Some(UpToEmpty(strings))
    decreases |strings|
  {
    if strings == [] {
      assert Pack(strings) + tail == tail;
    } else {
      PackFront(strings);
      var s, rest := strings[0], strings[1..];
      assert s in strings;
      var b := Pack(strings) + tail;
      assert b == s + [0] + (Pack(rest) + tail);
      if s != [] {
        ParsePacked(rest, tail);
        ParseFirst(s, Pack(rest) + tail);
      } else {
        assert b[0] == 0;
      }
    }
  }

  /** Read back, the record gives the array up to its first empty string; so it gives back the
      whole array, string number i being element i - 1, if and only if no string is empty. */
  lemma {:induction false} RecordReadsBack(template: seq<byte>, strings: seq<seq<byte>>)
    requires IsTemplate(template) && AreStrings(strings)
    ensures var record := Fixed(template) + StringSet(strings);
            var read := ParseSet(record[template[LENGTH_AT]..]);
            && read == Some(UpToEmpty(strings))
            && (read == Some(strings) <==> forall i :: 0 <= i < |strings| ==> strings[i] != [])
  {
    var record := Fixed(template) + StringSet(strings);
    assert record[template[LENGTH_AT]..] == StringSet(strings);
    ParsePacked(strings, if strings == [] then [0, 0] else [0]);
    var r := UpToEmpty(strings);
    if |r| == |strings| {
      assert r == strings;
    } else {
      assert strings[|r|] == [];
    }
  }

  /** The record keeps its fixed part, and ends in two NULs. */
  lemma {:induction false} RecordEnds(template: seq<byte>, strings: seq<seq<byte>>)
    requires IsTemplate(template)
    ensures var record := Fixed(template) + StringSet(strings);
            && Fixed(template) <= record && record[LENGTH_AT] == template[LENGTH_AT]
            && |record| >= 2 && record[|record| - 2..] == [0, 0]
  {
    var record := Fixed(template) + StringSet(strings);
    if strings != [] {
      assert Pack(strings)[|Pack(strings)| - 1] == 0;
      assert record[|record| - 2] == Pack(strings)[|Pack(strings)| - 1];
    }
  }
}
