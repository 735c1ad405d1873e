/** The compiler and the machine together: a compiled flow answers what its source means. */
module Correctness {
  import opened Ast
  import opened I32
  import opened Vm
  import opened Source
  import opened Compiler
  import opened CompilerProof
  import opened Layout
  import opened Sequences
  import Fragment

  lemma {:induction false} DistinctSlots(names: seq<string>)
    requires Distinct(names)
    ensures |SlotsFor(names)| == |names|
    ensures forall i :: 0 <= i < |names| ==> names[i] in SlotsFor(names) && SlotsFor(names)[names[i]] == i
    ensures forall x :: x in SlotsFor(names) ==> x in names
  {
    hide SlotFor;
    if names != [] {
      var n := |names| - 1;
      DistinctSlots(names[..n]);
      assert names[n] !in names[..n];
      assert forall i :: 0 <= i < n ==> names[i] == names[..n][i];
      NextSlot(SlotsFor(names[..n]), names[n]);
    }
  }

  lemma NextSlot(slots: Slots, name: string)
    requires name !in slots
    ensures SlotFor(slots, name) == slots[name := |slots|]
  {
  }

  lemma {:induction false} ParamValue(names: seq<string>, args: seq<int>, i: nat)
    requires Distinct(names) && i < |names|
    ensures Lookup(BindParams(names, args), names[i]) == if i < |args| then ToInt32(args[i]) else 0
  {
    if i < |names| - 1 {
      ParamValue(names[..|names| - 1], args, i);
    }
  }

  lemma {:induction false} OnlyParams(names: seq<string>, args: seq<int>)
    ensures forall x :: x in BindParams(names, args) ==> x in names
  {
    if names != [] {
      OnlyParams(names[..|names| - 1], args);
    }
  }

  /** The arguments from `from` on that reach one of the `count` slots are 0 once truncated. */
  predicate NoSurplus(args: seq<int>, from: nat, count: nat) {
    forall i :: from <= i < |args| && i < count ==> ToInt32(args[i]) == 0
  }

  /** The frame the machine starts with is the environment the flow starts with. */
  lemma InitialAgree(names: seq<string>, full: Slots, args: seq<int>)
    requires Distinct(names) && NoSurplus(args, |names|, |full|)
    requires Dense(full) && Extends(SlotsFor(names), full)
    ensures Agree(full, BindParams(names, args), InitialLocals(|full|, args))
  {
    DistinctSlots(names);
    OnlyParams(names, args);
    var env, locals := BindParams(names, args), InitialLocals(|full|, args);
    forall x | x in full
      ensures full[x] < |locals| && locals[full[x]] == Lookup(env, x)
    {
      if x in names {
        var i :| 0 <= i < |names| && names[i] == x;
        ParamValue(names, args, i);
      } else {
        LaterSlot(names, full, x);
      }
    }
  }

  lemma LaterSlot(names: seq<string>, full: Slots, x: string)
    requires Dense(full) && Extends(SlotsFor(names), full) && x in full
    requires |SlotsFor(names)| == |names|
    requires forall i :: 0 <= i < |names| ==> names[i] in SlotsFor(names) && SlotsFor(names)[names[i]] == i
    ensures full[x] < |names| ==> x in names
  {
    var i := full[x];
    if i < |names| {
      assert full[names[i]] == i;
    }
  }

  function AsOutcome(r: FlowResult): Outcome {
    match r
    case Answer(v) => Value(Some(v))
    case Trapped(k) => Outcome.Trapped(k)
  }

  /** For every flow the compiler accepts, every argument list and every loop cap, running the
      bytecode gives exactly the value or the trap of the source; and the flow is in the fragment,
      so no part of that value is the 0 given to nodes outside it. */
  lemma CompilerCorrect(flow: Node, flowName: string, declares64: bool, args: seq<int>, cap: nat)
    requires CompileFlow(flow, flowName, declares64).Some? && Fits(GenFlow(flow, declares64).value)
    requires Distinct(ParamNames(flow.children))
    requires NoSurplus(args, |ParamNames(flow.children)|, |GenFlow(flow, declares64).value.slots|)
    requires NeedBlock(Body(flow.children).value.children) <= STACK_SIZE
    ensures RunProgram(CompileFlow(flow, flowName, declares64).value, args, cap) == AsOutcome(EvalFlow(flow, args, cap))
    ensures Fragment.InFragment(flow, declares64)
  {
    hide Fragment.InFragment;
    Fragment.CompiledIff(flow, flowName, declares64);
    hide Run, GenBlock, EvalBlock, NeedBlock, Agree, BindParams, SlotsFor, NoSurplus;
    var names, ss := ParamNames(flow.children), Body(flow.children).value.children;
    SlotsForDense(names);
    BlockSlots(ss, 0, SlotsFor(names));
    InitialAgree(names, GenFlow(flow, declares64).value.slots, args);
    CompiledFrom(flow, flowName, declares64, args, BindParams(names, args), cap);
  }

  /** Whatever the arguments, the machine evaluates the body in the environment that its first locals give. */
  lemma CompiledFrom(flow: Node, flowName: string, declares64: bool, args: seq<int>, env: Env, cap: nat)
    requires CompileFlow(flow, flowName, declares64).Some? && Fits(GenFlow(flow, declares64).value)
    requires var slots := GenFlow(flow, declares64).value.slots; Agree(slots, env, InitialLocals(|slots|, args))
    requires NeedBlock(Body(flow.children).value.children) <= STACK_SIZE
    ensures RunProgram(CompileFlow(flow, flowName, declares64).value, args, cap)
         == AsOutcome(EvalFrom(Body(flow.children).value.children, env, cap))
  {
    hide Run, GenBlock, EvalBlock, NeedBlock, Agree, SlotsFor;
    var p := CompileFlow(flow, flowName, declares64).value;
    var f := GenFlow(flow, declares64).value;
    var names, ss := ParamNames(flow.children), Body(flow.children).value.children;
    var slots := SlotsFor(names);
    var b := GenBlock(ss, 0, slots).value;
    TruncateIsExact(flow, declares64);
    SlotsForDense(names);
    BlockSlots(ss, 0, slots);
    var st := InitialState(p.localCount, args);
    Whole(p.code, f.code);
    Split(p.code, 0, b.code, [LOAD_CONST, 0, RETURN]);
    var after := BlockCorrect(p.code, ss, slots, b.slots, env, st, cap);
    if EvalBlock(ss, env, 0, cap).Next? {
      assert [LOAD_CONST, 0, RETURN] == [LOAD_CONST, 0] + [RETURN];
      Split(p.code, |b.code|, [LOAD_CONST, 0], [RETURN]);
      RunConst(p.code, after, 0, cap);
      RunReturn(p.code, Pushed(after, 2, 0), cap);
    }
  }

  lemma Whole(code: seq<int>, f: seq<int>)
    requires code == f
    ensures CodeAt(code, 0, f)
  {
  }
}
