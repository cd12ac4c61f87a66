/** ConvertMasmToNasm: anonymous labels become numbered local labels, and the registers of a
    PROC ... USES clause are pushed at the PROC and popped at a ret. Lines are taken after the
    recognition of their kind. */
module MasmLabels {
  import opened Basics

  /** @b and @f */
  datatype Ref = Back | Forward

  datatype Line =
    | Anon                                     // @@: alone
    | AnonCode(refs: seq<Ref>)                 // @@: and code on the same line
    | Label(name: string, refs: seq<Ref>)      // an ordinary label, or data with a name, and what follows
    | Proc(name: string, uses: seq<string>)    // name PROC USES ...
    | Ret                                      // ret
    | Code(refs: seq<Ref>)                     // anything else, with its references

  /** Lines of the NASM file. */
  datatype Out =
    | Local(n: int)                            // .n:
    | Global(name: string)                     // name:
    | Push(register: string)
    | Pop(register: string)
    | Return                                   // ret
    | Left(targets: seq<int>)                  // @@: left as it is, and the code behind it
    | Instr(targets: seq<int>)                 // the line behind its label, its references replaced by .n

  // ----- conversion

  /** anonLabelCount before line `i`. */
  function Count(lines: seq<Line>, i: nat): (n: int)
    requires i <= |lines|
    ensures n >= -1
  {
    if i == 0 then -1 else Count(lines, i - 1) + if lines[i - 1].Anon? then 1 else 0
  }

  /** self.uses before line `i`: it exists only once a PROC or a ret has been seen. */
  function Uses(lines: seq<Line>, i: nat): Option<seq<string>>
    requires i <= |lines|
  {
    if i == 0 then None
    else match lines[i - 1]
      case Proc(_, uses) => Some(uses)
      case Ret => Some([])
      case _ => Uses(lines, i - 1)
  }

  function Number(r: Ref, count: int): int
  {
    match r
    case Back => count
    case Forward => count + 1
  }

  function Numbers(refs: seq<Ref>, count: int): (t: seq<int>)
    ensures |t| == |refs| && forall k :: 0 <= k < |t| ==> t[k] == Number(refs[k], count)
  {
    seq(|refs|, k requires 0 <= k < |refs| => Number(refs[k], count))
  }

  function Pushes(uses: seq<string>): seq<Out>
  {
    if uses == [] then [] else [Push(uses[0])] + Pushes(uses[1..])
  }

  function Pops(uses: seq<string>): seq<Out>
  {
    if uses == [] then [] else Pops(uses[1..]) + [Pop(uses[0])]
  }

  /** What is emitted for line `i`; None where the source fails on the missing attribute. */
  function Block(lines: seq<Line>, i: nat): Option<seq<Out>>
    requires i < |lines|
  {
    match lines[i]
    case Anon => Some([Local(Count(lines, i) + 1)])
    case AnonCode(refs) => Some([Left(Numbers(refs, Count(lines, i)))])
    case Label(name, refs) => Some([Global(name), Instr(Numbers(refs, Count(lines, i)))])
    case Proc(name, uses) => Some([Global(name)] + Pushes(uses))
    case Ret => if Uses(lines, i).Some? then Some(Pops(Uses(lines, i).value) + [Return]) else None
    case Code(refs) => Some([Instr(Numbers(refs, Count(lines, i)))])
  }

  /** The blocks are those of the first lines. */
  ghost predicate Converted(lines: seq<Line>, blocks: seq<seq<Out>>)
  {
    |blocks| <= |lines| && forall i :: 0 <= i < |blocks| ==> Block(lines, i) == Some(blocks[i])
  }

  /** A PROC stands before line `i`. */
  ghost predicate ProcBefore(lines: seq<Line>, i: nat)
  {
    exists k :: 0 <= k < i && k < |lines| && lines[k].Proc?
  }

  /** Every ret among the first `n` lines has a PROC somewhere before it. */
  ghost predicate RetsFollowProc(lines: seq<Line>, n: nat)
    requires n <= |lines|
  {
    forall i :: 0 <= i < n && lines[i].Ret? ==> ProcBefore(lines, i)
  }

  lemma {:induction false} UsesExists(lines: seq<Line>, i: nat)
    requires i <= |lines|
    ensures Uses(lines, i).Some? <==> exists k :: 0 <= k < i && (lines[k].Proc? || lines[k].Ret?)
  {
    if i > 0 {
      UsesExists(lines, i - 1);
      assert lines[i - 1].Proc? || lines[i - 1].Ret? ==> exists k :: 0 <= k < i && (lines[k].Proc? || lines[k].Ret?);
    }
  }

  /** The first `n` lines are converted if and only if each ret among them follows a PROC. */
  lemma {:induction false} ConvertsIff(lines: seq<Line>, n: nat)
    requires n <= |lines|
    ensures (forall i :: 0 <= i < n ==> Block(lines, i).Some?) <==> RetsFollowProc(lines, n)
  {
    if n > 0 {
      ConvertsIff(lines, n - 1);
      if RetsFollowProc(lines, n - 1) {
        LastRet(lines, n - 1);
      }
      hide Block;
    }
  }

  lemma {:induction false} LastRet(lines: seq<Line>, i: nat)
    requires i < |lines| && RetsFollowProc(lines, i)
    ensures Block(lines, i).Some? <==> (lines[i].Ret? ==> ProcBefore(lines, i))
  {
    UsesExists(lines, i);
    hide Uses, Count, Pops;
    if k :| 0 <= k < i && lines[k].Ret? {
      assert ProcBefore(lines, k);
    }
  }

  /** A ret without any PROC is not converted. */
  lemma RetAloneFails()
    ensures !RetsFollowProc([Ret], 1) && Block([Ret], 0) == None
  {
    assert [Ret][0].Ret?;
  }

  /** Convert and TranslateAsm: one block of output per line, up to a ret that finds no PROC before
      it. */
  method Convert(lines: seq<Line>) returns (ok: bool, blocks: seq<seq<Out>>)
    ensures |blocks| <= |lines| && (ok <==> |blocks| == |lines|)
    ensures Converted(lines, blocks)
    ensures !ok ==> Block(lines, |blocks|) == None
    ensures ok <==> RetsFollowProc(lines, |lines|)
  {
    var anonLabelCount := -1;
    var uses: Option<seq<string>> := None;
    blocks := [];
    while |blocks| < |lines|
      invariant |blocks| <= |lines|
      invariant anonLabelCount == Count(lines, |blocks|) && uses == Uses(lines, |blocks|)
      invariant Converted(lines, blocks)
      decreases |lines| - |blocks|
    {
      var emitted: seq<Out>;
      match lines[|blocks|] {
        case Anon =>
          anonLabelCount := anonLabelCount + 1;
          emitted := [Local(anonLabelCount)];
        case AnonCode(refs) =>
          emitted := [Left(Numbers(refs, anonLabelCount))];
        case Label(name, refs) =>
          emitted := [Global(name), Instr(Numbers(refs, anonLabelCount))];
        case Proc(name, registers) =>
          uses := Some(registers);
          var pushes := EmitPushes(registers);
          emitted := [Global(name)] + pushes;
        case Ret =>
          if uses.None? {
            ConvertsIff(lines, |lines|);
            return false, blocks;
          }
          var pops := EmitPops(uses.value);
          emitted := pops + [Return];
          uses := Some([]);
        case Code(refs) =>
          emitted := [Instr(Numbers(refs, anonLabelCount))];
      }
      blocks := blocks + [emitted];
    }
    ConvertsIff(lines, |lines|);
    ok := true;
  }

  method EmitPushes(uses: seq<string>) returns (out: seq<Out>)
    ensures out == Pushes(uses)
  {
    out := [];
    var k := 0;
    while k < |uses|
      invariant k <= |uses|
      invariant out + Pushes(uses[k..]) == Pushes(uses)
    {
      assert out + Pushes(uses[k..]) == out + [Push(uses[k])] + Pushes(uses[k + 1..]);
      out := out + [Push(uses[k])];
      k := k + 1;
    }
  }

  /** The pops of a ret: from the last register of the clause down to the first. */
  method EmitPops(uses: seq<string>) returns (out: seq<Out>)
    ensures out == Pops(uses)
  {
    out := [];
    var k := |uses|;
    while k > 0
      invariant 0 <= k <= |uses|
      invariant out == Pops(uses[k..])
    {
      k := k - 1;
      assert uses[k..][1..] == uses[k + 1..];
      out := out + [Pop(uses[k])];
    }
    assert uses[0..] == uses;
  }

  // ----- where references go

  predicate IsAnon(l: Line)
  {
    l.Anon? || l.AnonCode?
  }

  /** MASM: the nearest @@: before (@b) or after (@f) the code of line `i`; one on line `i` itself
      stands before its code. */
  ghost predicate MasmTarget(lines: seq<Line>, i: nat, r: Ref, t: nat)
  {
    && i < |lines| && t < |lines| && IsAnon(lines[t])
    && match r
       case Back => t <= i && forall k :: t < k <= i ==> !IsAnon(lines[k])
       case Forward => i < t && forall k :: i < k < t ==> !IsAnon(lines[k])
  }

  /** The nearest @@: that stands alone on its line. */
  ghost predicate AloneTarget(lines: seq<Line>, i: nat, r: Ref, t: nat)
  {
    && i < |lines| && t < |lines| && lines[t].Anon?
    && match r
       case Back => t < i && forall k :: t < k < i ==> !lines[k].Anon?
       case Forward => i < t && forall k :: i < k < t ==> !lines[k].Anon?
  }

  /** An @@: that shares its line with code lies between a reference on line `i` and line `t`. */
  ghost predicate SharedBetween(lines: seq<Line>, i: nat, t: nat)
    requires i < |lines| && t < |lines|
  {
    exists k :: 0 <= k < |lines| && (i < k < t || t < k <= i) && lines[k].AnonCode?
  }

  predicate IsOrdinary(l: Line)
  {
    l.Label? || l.Proc?
  }

  /** Lines whose references are replaced. */
  predicate HasRefs(l: Line)
  {
    l.Code? || l.Label? || l.AnonCode?
  }

  /** NASM: the last ordinary label of a block, or the one before it. */
  function ScopeAfter(scope: Option<string>, block: seq<Out>): Option<string>
  {
    if block == [] then scope
    else if block[|block| - 1].Global? then Some(block[|block| - 1].name)
    else ScopeAfter(scope, block[..|block| - 1])
  }

  /** NASM: the ordinary label in whose scope block `i` begins. */
  function Scope(blocks: seq<seq<Out>>, i: nat): Option<string>
    requires i <= |blocks|
  {
    if i == 0 then None else ScopeAfter(Scope(blocks, i - 1), blocks[i - 1])
  }

  /** The assembler takes an ordinary label only once. */
  ghost predicate DistinctLabels(lines: seq<Line>)
  {
    forall i, j :: 0 <= i < |lines| && 0 <= j < |lines| && IsOrdinary(lines[i]) && IsOrdinary(lines[j]) ==>
                     lines[i].name == lines[j].name ==> i == j
  }

  /** NASM: a reference .n in block `i` goes to block `t`: .n is defined there, in the same scope; a
      label of block `i` itself stands before its references. */
  ghost predicate NasmTarget(blocks: seq<seq<Out>>, i: nat, n: int, t: nat)
  {
    && i < |blocks| && t < |blocks|
    && Local(n) in blocks[t]
    && Scope(blocks, t) == Scope(blocks, i + 1)
  }

  function RefsOf(l: Line): seq<Ref>
    requires HasRefs(l)
  {
    l.refs
  }

  /** The numbers put for the references of a block: they stand in its last line. */
  function TargetsOf(block: seq<Out>): seq<int>
  {
    if block == [] then []
    else match block[|block| - 1]
      case Left(targets) => targets
      case Instr(targets) => targets
      case _ => []
  }

  lemma {:induction false} CountRises(lines: seq<Line>, i: nat, j: nat)
    requires i <= j <= |lines|
    ensures Count(lines, i) <= Count(lines, j)
    ensures Count(lines, i) == Count(lines, j) <==> forall k :: i <= k < j ==> !lines[k].Anon?
    decreases j
  {
    if i < j {
      CountRises(lines, i, j - 1);
    }
  }

  /** No numbered label is emitted twice. */
  lemma {:induction false} NamesAreUnique(lines: seq<Line>, blocks: seq<seq<Out>>, i: nat, j: nat, n: int)
    requires Converted(lines, blocks) && i < |blocks| && j < |blocks|
    requires Local(n) in blocks[i] && Local(n) in blocks[j]
    ensures i == j
  {
    LocalMeansAnon(lines, i, n);
    LocalMeansAnon(lines, j, n);
    CountRises(lines, if i < j then i else j, if i < j then j else i);
  }

  lemma {:induction false} LocalMeansAnon(lines: seq<Line>, i: nat, n: int)
    requires i < |lines| && Block(lines, i).Some?
    ensures Local(n) in Block(lines, i).value <==> lines[i].Anon? && Count(lines, i) + 1 == n
  {
    match lines[i]
    case Proc(name, uses) => NoLocals(uses, n);
    case Ret => NoLocals(Uses(lines, i).value, n);
    case _ =>
  }

  lemma {:induction false} NoLocals(uses: seq<string>, n: int)
    ensures Local(n) !in Pushes(uses) && Local(n) !in Pops(uses)
  {
    if uses != [] {
      NoLocals(uses[1..], n);
    }
  }

  lemma {:induction false} NoScopes(scope: Option<string>, uses: seq<string>)
    ensures ScopeAfter(scope, Pops(uses)) == scope
  {
    if uses != [] {
      var front := Pops(uses[1..]);
      assert (front + [Pop(uses[0])])[..|front|] == front;
      NoScopes(scope, uses[1..]);
    }
  }

  lemma {:induction false} PushScopes(scope: Option<string>, name: string, uses: seq<string>, n: nat)
    requires n <= |Pushes(uses)|
    ensures forall k :: 0 <= k < |Pushes(uses)| ==> Pushes(uses)[k].Push?
    ensures ScopeAfter(scope, [Global(name)] + Pushes(uses)[..n]) == Some(name)
    decreases n
  {
    ArePushes(uses);
    var p := Pushes(uses);
    hide Pushes;
    var block := [Global(name)] + p[..n];
    if n > 0 {
      assert block[..n] == [Global(name)] + p[..n - 1] && block[n] == p[n - 1];
      PushScopes(scope, name, uses, n - 1);
    }
  }

  lemma {:induction false} ArePushes(uses: seq<string>)
    ensures forall k :: 0 <= k < |Pushes(uses)| ==> Pushes(uses)[k].Push?
  {
    if uses != [] {
      ArePushes(uses[1..]);
    }
  }

  /** A block opens a scope exactly for an ordinary label, under the name of the line. */
  lemma {:induction false} BlockScope(lines: seq<Line>, i: nat, scope: Option<string>)
    requires i < |lines| && Block(lines, i).Some?
    ensures ScopeAfter(scope, Block(lines, i).value) == if IsOrdinary(lines[i]) then Some(lines[i].name) else scope
  {
    var block := Block(lines, i).value;
    match lines[i]
    case Proc(name, uses) =>
      PushScopes(scope, name, uses, |Pushes(uses)|);
      assert Pushes(uses)[..|Pushes(uses)|] == Pushes(uses);
    case Ret =>
      var pops := Pops(Uses(lines, i).value);
      NoScopes(scope, Uses(lines, i).value);
      assert (pops + [Return])[..|pops|] == pops;
    case Label(name, refs) =>
      assert block[..1] == [Global(name)];
    case _ =>
      assert |block| == 1 && block[..0] == [];
  }

  /** No ordinary label lies between a reference on line `i` and line `t`; a label on line `i` stands
      in front of the reference. */
  ghost predicate NoLabelBetween(lines: seq<Line>, i: nat, t: nat)
    requires i < |lines| && t < |lines|
  {
    forall k :: (i < k < t || t < k <= i) ==> !IsOrdinary(lines[k])
  }

  lemma {:induction false} SameScope(lines: seq<Line>, blocks: seq<seq<Out>>, i: nat, j: nat)
    requires Converted(lines, blocks) && i <= j <= |blocks| && DistinctLabels(lines)
    ensures Scope(blocks, i) == Scope(blocks, j) <==> forall k :: i <= k < j ==> !IsOrdinary(lines[k])
    decreases j
  {
    hide Block, ScopeAfter;
    if i < j {
      BlockScope(lines, j - 1, Scope(blocks, j - 1));
      if IsOrdinary(lines[j - 1]) {
        ScopeIsEarlier(lines, blocks, i);
      } else {
        SameScope(lines, blocks, i, j - 1);
      }
    }
  }

  lemma {:induction false} ScopeIsEarlier(lines: seq<Line>, blocks: seq<seq<Out>>, i: nat)
    requires Converted(lines, blocks) && i <= |blocks|
    ensures Scope(blocks, i).Some? ==>
              exists k :: 0 <= k < i && IsOrdinary(lines[k]) && lines[k].name == Scope(blocks, i).value
  {
    hide Block, ScopeAfter;
    if i > 0 {
      BlockScope(lines, i - 1, Scope(blocks, i - 1));
      if !IsOrdinary(lines[i - 1]) {
        ScopeIsEarlier(lines, blocks, i - 1);
      }
    }
  }

  /** Every reference has its number in the last line of its block, and no other number is there. */
  lemma {:induction false} EveryReferenceIsNumbered(lines: seq<Line>, blocks: seq<seq<Out>>, i: nat)
    requires Converted(lines, blocks) && i < |blocks| && HasRefs(lines[i])
    ensures |TargetsOf(blocks[i])| == |RefsOf(lines[i])|
    ensures forall k :: 0 <= k < |RefsOf(lines[i])| ==>
                          TargetsOf(blocks[i])[k] == Number(RefsOf(lines[i])[k], Count(lines, i))
  {
  }

  /** For every reference of every line: the number put for it is defined in a block if and only if
      that is the nearest @@: that stands alone; it is the one MASM means if and only if no @@: that
      shares its line comes before it. */
  lemma {:induction false} NumberMeetsTarget(lines: seq<Line>, blocks: seq<seq<Out>>, i: nat, k: nat, t: nat)
    requires Converted(lines, blocks) && |blocks| == |lines|
    requires i < |lines| && HasRefs(lines[i]) && k < |RefsOf(lines[i])| && t < |lines|
    ensures |TargetsOf(blocks[i])| == |RefsOf(lines[i])|
    ensures var n, r := TargetsOf(blocks[i])[k], RefsOf(lines[i])[k];
            && (Local(n) in blocks[t] <==> AloneTarget(lines, i, r, t))
            && (MasmTarget(lines, i, r, t) && lines[t].Anon? <==> AloneTarget(lines, i, r, t) && !SharedBetween(lines, i, t))
  {
    var r := RefsOf(lines[i])[k];
    EveryReferenceIsNumbered(lines, blocks, i);
    LocalMeansAnon(lines, t, Number(r, Count(lines, i)));
    hide Block, TargetsOf;
    if lines[t].Anon? {
      if t < i {
        CountRises(lines, t + 1, i);
        CountRises(lines, t, t + 1);
      } else {
        CountRises(lines, i, t);
      }
      hide Count;
      MeansAlone(lines, i, r, t);
    }
  }

  lemma {:induction false} MeansAlone(lines: seq<Line>, i: nat, r: Ref, t: nat)
    requires i < |lines| && HasRefs(lines[i]) && t < |lines| && lines[t].Anon?
    ensures MasmTarget(lines, i, r, t) <==> AloneTarget(lines, i, r, t) && !SharedBetween(lines, i, t)
  {
  }

  /** References keep their targets: the line `t` that a reference means in the MASM file is the one
      that the number put for it resolves to in the NASM file if and only if its @@: stands alone and
      no ordinary label lies between the two. The number resolves to another line exactly when an @@:
      that shares its line was passed over. */
  lemma {:induction false} TargetsArePreserved(lines: seq<Line>, blocks: seq<seq<Out>>, i: nat, k: nat, t: nat)
    requires Converted(lines, blocks) && |blocks| == |lines| && DistinctLabels(lines)
    requires i < |lines| && HasRefs(lines[i]) && k < |RefsOf(lines[i])| && t < |lines|
    ensures |TargetsOf(blocks[i])| == |RefsOf(lines[i])|
    ensures var n, r := TargetsOf(blocks[i])[k], RefsOf(lines[i])[k];
            && (MasmTarget(lines, i, r, t) ==>
                  (NasmTarget(blocks, i, n, t) <==> lines[t].Anon? && NoLabelBetween(lines, i, t)))
            && (NasmTarget(blocks, i, n, t) && !MasmTarget(lines, i, r, t) <==>
                AloneTarget(lines, i, r, t) && NoLabelBetween(lines, i, t) && SharedBetween(lines, i, t))
  {
    var r := RefsOf(lines[i])[k];
    NumberMeetsTarget(lines, blocks, i, k, t);
    assert MasmTarget(lines, i, r, t) && !lines[t].Anon? ==> !AloneTarget(lines, i, r, t);
    hide Block, TargetsOf, Converted, Scope, SharedBetween, MasmTarget;
    if AloneTarget(lines, i, r, t) {
      SameScopeBetween(lines, blocks, i, r, t);
    }
    hide AloneTarget, NoLabelBetween;
  }

  lemma {:induction false} SameScopeBetween(lines: seq<Line>, blocks: seq<seq<Out>>, i: nat, r: Ref, t: nat)
    requires Converted(lines, blocks) && |blocks| == |lines| && DistinctLabels(lines) && AloneTarget(lines, i, r, t)
    ensures Scope(blocks, t) == Scope(blocks, i + 1) <==> NoLabelBetween(lines, i, t)
  {
    hide Block, Converted, Scope, DistinctLabels;
    if t < i {
      SameScope(lines, blocks, t, i + 1);
    } else {
      SameScope(lines, blocks, i + 1, t);
    }
  }

  /** With an @@: that shares its line in between, the number goes to the wrong line. */
  lemma {:induction false} SharedLabelIsMissed(blocks: seq<seq<Out>>)
    requires |blocks| == 3 && Converted([Anon, AnonCode([]), Code([Back])], blocks)
    ensures var lines := [Anon, AnonCode([]), Code([Back])];
            && MasmTarget(lines, 2, Back, 1) && !MasmTarget(lines, 2, Back, 0)
            && TargetsOf(blocks[2]) == [0] && NasmTarget(blocks, 2, 0, 0)
  {
    var lines := [Anon, AnonCode([]), Code([Back])];
    assert lines[1].AnonCode?;
    TargetsArePreserved(lines, blocks, 2, 0, 0);
    EveryReferenceIsNumbered(lines, blocks, 2);
    assert Count(lines, 1) == Count(lines, 0) + 1 && Count(lines, 2) == Count(lines, 1);
    assert TargetsOf(blocks[2]) == [0];
  }

  // ----- USES

  datatype Machine = Machine(stack: seq<int>, regs: map<string, int>)

  function Get(regs: map<string, int>, r: string): int
  {
    if r in regs then regs[r] else 0
  }

  /** The effect of pushes and pops; None when the stack is empty. Other lines do nothing here. */
  function Exec(m: Machine, code: seq<Out>): Option<Machine>
    decreases |code|
  {
    if code == [] then Some(m)
    else match code[0]
      case Push(r) => Exec(m.(stack := m.stack + [Get(m.regs, r)]), code[1..])
      case Pop(r) =>
        if m.stack == [] then None
        else
          var n := |m.stack| - 1;
          Exec(Machine(m.stack[..n], m.regs[r := m.stack[n]]), code[1..])
      case _ => Exec(m, code[1..])
  }

  lemma {:induction false} ExecAppend(m: Machine, a: seq<Out>, b: seq<Out>)
    ensures Exec(m, a + b) == match Exec(m, a) case None => None case Some(m') => Exec(m', b)
    decreases |a|
  {
    if a == [] {
      assert a + b == b;
    } else {
      assert (a + b)[1..] == a[1..] + b;
      match a[0]
      case Push(r) => ExecAppend(m.(stack := m.stack + [Get(m.regs, r)]), a[1..], b);
      case Pop(r) =>
        if m.stack != [] {
          var n := |m.stack| - 1;
          ExecAppend(Machine(m.stack[..n], m.regs[r := m.stack[n]]), a[1..], b);
        }
      case _ => ExecAppend(m, a[1..], b);
    }
  }

  function Values(regs: map<string, int>, uses: seq<string>): (v: seq<int>)
    ensures |v| == |uses|
  {
    if uses == [] then [] else [Get(regs, uses[0])] + Values(regs, uses[1..])
  }

  /** `regs` with the registers of the clause as they were in `saved`. */
  function Restored(regs: map<string, int>, saved: map<string, int>, uses: seq<string>): map<string, int>
  {
    if uses == [] then regs else Restored(regs, saved, uses[1..])[uses[0] := Get(saved, uses[0])]
  }

  lemma {:induction false} PushesSave(m: Machine, uses: seq<string>)
    ensures Exec(m, Pushes(uses)) == Some(m.(stack := m.stack + Values(m.regs, uses)))
    decreases |uses|
  {
    if uses == [] {
      assert m.stack + [] == m.stack;
    } else {
      var v, rest := Get(m.regs, uses[0]), uses[1..];
      var m' := m.(stack := m.stack + [v]);
      PushFirst(m, uses);
      hide Exec, Pushes;
      PushesSave(m', rest);
      assert (m.stack + [v]) + Values(m.regs, rest) == m.stack + ([v] + Values(m.regs, rest));
    }
  }

  lemma {:induction false} PushFirst(m: Machine, uses: seq<string>)
    requires uses != []
    ensures Exec(m, Pushes(uses)) == Exec(m.(stack := m.stack + [Get(m.regs, uses[0])]), Pushes(uses[1..]))
  {
    assert Pushes(uses)[0] == Push(uses[0]) && Pushes(uses)[1..] == Pushes(uses[1..]);
  }

  lemma {:induction false} PopsRestore(stack: seq<int>, regs: map<string, int>, saved: map<string, int>, uses: seq<string>)
    ensures Exec(Machine(stack + Values(saved, uses), regs), Pops(uses)) == Some(Machine(stack, Restored(regs, saved, uses)))
    decreases |uses|
  {
    if uses == [] {
      assert stack + [] == stack;
    } else {
      var v, rest := Get(saved, uses[0]), uses[1..];
      var m := Machine(stack + Values(saved, uses), regs);
      assert stack + Values(saved, uses) == (stack + [v]) + Values(saved, rest);
      PopsRestore(stack + [v], regs, saved, rest);
      ExecAppend(m, Pops(rest), [Pop(uses[0])]);
      var m' := Machine(stack + [v], Restored(regs, saved, rest));
      assert m'.stack[..|stack|] == stack && [Pop(uses[0])][1..] == [];
      assert Exec(m', [Pop(uses[0])]) == Some(Machine(stack, m'.regs[uses[0] := v]));
    }
  }

  lemma {:induction false} UsesSince(lines: seq<Line>, p: nat, i: nat)
    requires p < i <= |lines| && lines[p].Proc? && forall k :: p < k < i ==> !lines[k].Proc?
    ensures Uses(lines, i) == Some(if exists k :: p < k < i && lines[k].Ret? then [] else lines[p].uses)
    decreases i
  {
    if i > p + 1 {
      UsesSince(lines, p, i - 1);
      assert lines[i - 1].Ret? ==> exists k :: p < k < i && lines[k].Ret?;
    }
  }

  /** A ret undoes its PROC's pushes, whatever the body did to the registers, if and only if it is
      the first ret of the PROC or there was nothing to push. */
  lemma {:induction false} RetRestoresIff(lines: seq<Line>, p: nat, i: nat, before: Machine, regs: map<string, int>)
    requires p < i < |lines| && lines[p].Proc? && lines[i].Ret? && forall k :: p < k < i ==> !lines[k].Proc?
    ensures var entry := Exec(before, Block(lines, p).value);
            && entry.Some?
            && Block(lines, i).Some?
            && (Exec(entry.value.(regs := regs), Block(lines, i).value)
                  == Some(Machine(before.stack, Restored(regs, before.regs, lines[p].uses)))
                <==> (lines[p].uses == [] || forall k :: p < k < i ==> !lines[k].Ret?))
  {
    var uses, name := lines[p].uses, lines[p].name;
    assert ([Global(name)] + Pushes(uses))[1..] == Pushes(uses);
    PushesSave(before, uses);
    UsesSince(lines, p, i);
    var stack := before.stack + Values(before.regs, uses);
    var popped := Uses(lines, i).value;
    ExecAppend(Machine(stack, regs), Pops(popped), [Return]);
    assert [Return][1..] == [];
    if popped == uses {
      PopsRestore(before.stack, regs, before.regs, uses);
    } else {
      assert Exec(Machine(stack, regs), []) == Some(Machine(stack, regs));
      assert |stack| == |before.stack| + |uses|;
    }
  }
}
