/** Compiled bytecode is cached per program object and flow name. */
module CompileCache {
  import opened Ast
  import opened I32
  import opened Vm
  import opened Compiler

  /** A parsed program: the cache keys on this object, not on its contents. */
  class ProgramAst {
    const root: Node

    constructor (root: Node)
      ensures this.root == root
    {
      this.root := root;
    }
  }

  /** The first flow declaration of that name; a governed flow is never compiled. */
  function FindFlow(children: seq<Node>, flowName: string): Option<Node> {
    if children == [] then None
    else if children[0].kind in {FlowDecl, SecureFlowDecl, PureFlowDecl, GuardedFlowDecl} && children[0].value == flowName
    then Some(children[0])
    else FindFlow(children[1..], flowName)
  }

  predicate IsFlow(n: Node, flowName: string) {
    n.kind in {FlowDecl, SecureFlowDecl, PureFlowDecl, GuardedFlowDecl} && n.value == flowName
  }

  /** No earlier child is a flow of that name. */
  predicate FirstFlow(children: seq<Node>, flowName: string, i: nat) {
    i < |children| && IsFlow(children[i], flowName) && forall k :: 0 <= k < i ==> !IsFlow(children[k], flowName)
  }

  /** The flow found is the first child of a flow kind with that name; none is found exactly when there is none. */
  lemma {:induction false} FlowFound(children: seq<Node>, flowName: string)
    ensures FindFlow(children, flowName).Some? <==> exists n :: n in children && IsFlow(n, flowName)
    ensures forall i: nat :: FirstFlow(children, flowName, i) ==> FindFlow(children, flowName) == Some(children[i])
    ensures FindFlow(children, flowName).Some? ==> exists i: nat :: FirstFlow(children, flowName, i)
  {
    if children != [] {
      var rest := children[1..];
      FlowFound(rest, flowName);
      assert forall n :: n in children <==> n == children[0] || n in rest;
      if IsFlow(children[0], flowName) {
        assert FirstFlow(children, flowName, 0);
      } else {
        forall i: nat | FirstFlow(children, flowName, i) ensures i > 0 && FirstFlow(rest, flowName, i - 1)
            && rest[i - 1] == children[i] {
          assert forall k :: 0 <= k < i - 1 ==> rest[k] == children[k + 1];
        }
        if i: nat :| FirstFlow(rest, flowName, i) {
          assert forall k :: 0 < k < i + 1 ==> children[k] == rest[k - 1];
          assert FirstFlow(children, flowName, i + 1);
        }
      }
    }
  }

  function CompileNamed(root: Node, flowName: string, declares64: Node -> bool): Option<BytecodeProgram> {
    match FindFlow(root.children, flowName)
    case None => None
    case Some(flow) => CompileFlow(flow, flowName, declares64(flow))
  }

  datatype FlowMeta = FlowMeta(name: string, pure: bool)

  function FindMeta(flows: seq<FlowMeta>, name: string): Option<FlowMeta> {
    if flows == [] then None else if flows[0].name == name then Some(flows[0]) else FindMeta(flows[1..], name)
  }

  class BytecodeCache {
    var entries: map<ProgramAst, map<string, Option<BytecodeProgram>>>
    const declares64: Node -> bool

    /** Everything cached, refusals included, is what compiling that program afresh would give. */
    ghost predicate Valid()
      reads this
    {
      forall ast, name :: ast in entries && name in entries[ast] ==>
        entries[ast][name] == CompileNamed(ast.root, name, declares64)
    }

    constructor (declares64: Node -> bool)
      ensures Valid() && entries == map[]
    {
      this.entries, this.declares64 := map[], declares64;
    }

    /** A hit and a miss answer alike, and a flow never gets another program's code. */
    method CompileToBytecode(ast: ProgramAst, flowName: string) returns (r: Option<BytecodeProgram>)
      requires Valid()
      modifies this
      ensures Valid()
      ensures r == CompileNamed(ast.root, flowName, declares64)
      ensures entries.Keys == old(entries).Keys + {ast} && flowName in entries[ast]
      ensures forall a, n :: a in old(entries) && n in old(entries)[a] ==> n in entries[a]
    {
      hide CompileNamed;
      if ast !in entries {
        entries := entries[ast := map[]];
      }
      var perAst := entries[ast];
      if flowName in perAst {
        return perAst[flowName];
      }
      r := CompileFresh(ast, flowName);
      entries := entries[ast := perAst[flowName := r]];
    }

    method CompileFresh(ast: ProgramAst, flowName: string) returns (r: Option<BytecodeProgram>)
      ensures r == CompileNamed(ast.root, flowName, declares64)
    {
      hide CompileFlow, FindFlow;
      var flow := FindFlow(ast.root.children, flowName);
      if flow.None? { return None; }
      var compiler := new BytecodeCompiler(flowName);
      r := compiler.Compile(flow.value, declares64(flow.value));
    }

    /** `None` tells the caller to fall back to the tree-walker. */
    method TryRunBytecode(ast: ProgramAst, flows: seq<FlowMeta>, flowName: string, args: seq<int>)
      returns (r: Option<Outcome>)
      requires Valid()
      modifies this
      ensures Valid()
      ensures var meta, p := FindMeta(flows, flowName), CompileNamed(ast.root, flowName, declares64);
              r == if meta.None? || !meta.value.pure || p.None? then None else Some(RunProgram(p.value, args, 100_000))
    {
      var meta := FindMeta(flows, flowName);
      if meta.None? || !meta.value.pure {
        return None;
      }
      var p := CompileToBytecode(ast, flowName);
      if p.None? {
        return None;
      }
      var o := RunBytecode(p.value, args, 100_000);
      return Some(o);
    }

    method Clear()
      modifies this
      ensures Valid() && entries == map[]
    {
      entries := map[];
    }
  }
}
