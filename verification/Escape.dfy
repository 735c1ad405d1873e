/** Which record bindings may live in an arena that is reclaimed with their flow. */
module Escape {
  import opened Ast

  predicate IsRecordLiteral(n: Node) {
    n.kind.CallExpr? && n.value in {"#record", "#record-update"}
  }

  predicate IsBinding(n: Node) {
    n.kind.LetDecl? || n.kind.MutDecl? || n.kind.AssignStmt?
  }

  predicate IsAliasId(n: Node, aliases: set<string>) {
    n.kind.Identifier? && n.value in aliases
  }

  // ----- Alias closure -----

  datatype Bind = Bind(name: string, init: Option<Node>)

  /** The bindings of a subtree, in tree order. */
  function Binds(n: Node): seq<Bind>
    decreases n
  {
    (if IsBinding(n) then [Bind(BindingName(n.value), if n.children == [] then None else Some(n.children[0]))] else [])
      + BindsAll(n.children)
  }

  function BindsAll(ns: seq<Node>): seq<Bind>
    decreases ns
  {
    if ns == [] then [] else Binds(ns[0]) + BindsAll(ns[1..])
  }

  /** A binding hands its variable an alias when its initialiser is a bare alias name. */
  predicate Passes(b: Bind, aliases: set<string>) {
    b.name != "" && b.init.Some? && IsAliasId(b.init.value, aliases)
  }

  predicate Closed(binds: seq<Bind>, aliases: set<string>) {
    forall b :: b in binds && Passes(b, aliases) ==> b.name in aliases
  }

  /** The least set that holds `name` and is closed under pass-through bindings. */
  ghost predicate IsAliasSet(name: string, binds: seq<Bind>, aliases: set<string>) {
    && name in aliases && Closed(binds, aliases)
    && forall s: set<string> :: name in s && Closed(binds, s) ==> aliases <= s
  }

  lemma AliasSetUnique(name: string, binds: seq<Bind>, a: set<string>, b: set<string>)
    requires IsAliasSet(name, binds, a) && IsAliasSet(name, binds, b)
    ensures a == b
  {
  }

  function Names(binds: seq<Bind>): set<string> {
    set b | b in binds :: b.name
  }

  /** The `changed` loop: sweep the bindings until nothing is added. */
  method ComputeAliases(name: string, body: Node) returns (aliases: set<string>)
    ensures IsAliasSet(name, Binds(body), aliases)
  {
    aliases := {name};
    var binds := Binds(body);
    var changed := true;
    while changed
      invariant name in aliases
      invariant forall s: set<string> :: name in s && Closed(binds, s) ==> aliases <= s
      invariant !changed ==> Closed(binds, aliases)
      decreases Names(binds) - aliases, changed
    {
      changed := false;
      ghost var before := aliases;
      for i := 0 to |binds|
        invariant before <= aliases && (changed ==> Names(binds) - aliases < Names(binds) - before)
        invariant !changed ==> aliases == before && forall k :: 0 <= k < i && Passes(binds[k], aliases) ==> binds[k].name in aliases
        invariant forall s: set<string> :: name in s && Closed(binds, s) ==> aliases <= s
      {
        var b := binds[i];
        if b.name != "" && b.name !in aliases && Passes(b, aliases) {
          assert b.name in Names(binds);
          aliases := aliases + {b.name};
          changed := true;
        }
      }
    }
  }

  // ----- Escaping uses -----

  /** Some alias occurs in a position that is not proven local: anything but the receiver of a
      field read or the whole initialiser of a binding. */
  predicate Escapes(n: Node, aliases: set<string>)
    decreases n
  {
    if n.kind.MemberExpr? then
      n.children != [] && !IsAliasId(n.children[0], aliases) && Escapes(n.children[0], aliases)
    else if IsBinding(n) && n.children != [] && IsAliasId(n.children[0], aliases) then false
    else exists i :: 0 <= i < |n.children| && (IsAliasId(n.children[i], aliases) || Escapes(n.children[i], aliases))
  }

  /** Nothing is looked at under a field read of an alias or a binding to one, and of a field read only the receiver. */
  predicate Enters(n: Node, i: nat, aliases: set<string>) {
    && (n.kind in {MemberExpr, LetDecl, MutDecl, AssignStmt} && n.children != [] ==> !IsAliasId(n.children[0], aliases))
    && (n.kind.MemberExpr? ==> i == 0)
  }

  predicate Entered(n: Node, path: seq<nat>, aliases: set<string>) {
    forall k :: 0 <= k < |path| ==> NodeAt(n, path[..k]).Some? && Enters(NodeAt(n, path[..k]).value, path[k], aliases)
  }

  /** The path leads to an alias that stands somewhere else than as the receiver of a field read or the whole
      initialiser of a binding. */
  predicate EscapingUse(n: Node, path: seq<nat>, aliases: set<string>) {
    && path != [] && NodeAt(n, path).Some? && IsAliasId(NodeAt(n, path).value, aliases) && Entered(n, path, aliases)
  }

  lemma EnteredBelow(n: Node, i: nat, path: seq<nat>, aliases: set<string>)
    requires i < |n.children|
    ensures Entered(n, [i] + path, aliases) <==> Enters(n, i, aliases) && Entered(n.children[i], path, aliases)
  {
    var p := [i] + path;
    assert p[1..] == path;
    assert NodeAt(n, p[..0]) == Some(n);
    forall k | 0 < k <= |p| ensures NodeAt(n, p[..k]) == NodeAt(n.children[i], path[..k - 1]) {
      assert p[..k][1..] == path[..k - 1];
    }
    if Enters(n, i, aliases) && Entered(n.children[i], path, aliases) {
      forall k | 0 <= k < |p| ensures NodeAt(n, p[..k]).Some? && Enters(NodeAt(n, p[..k]).value, p[k], aliases) {
        if k > 0 { assert p[k] == path[k - 1]; }
      }
    }
    if Entered(n, p, aliases) {
      forall k | 0 <= k < |path| ensures NodeAt(n.children[i], path[..k]).Some?
          && Enters(NodeAt(n.children[i], path[..k]).value, path[k], aliases) {
        assert NodeAt(n, p[..k + 1]) == NodeAt(n.children[i], path[..k]) && p[k + 1] == path[k];
      }
    }
  }

  lemma UseBelow(n: Node, i: nat, path: seq<nat>, aliases: set<string>)
    requires i < |n.children| && path != []
    ensures EscapingUse(n, [i] + path, aliases) <==> Enters(n, i, aliases) && EscapingUse(n.children[i], path, aliases)
  {
    EnteredBelow(n, i, path, aliases);
    var p := [i] + path;
    assert p[1..] == path;
    hide Entered, Enters, IsAliasId;
  }

  lemma UseHere(n: Node, i: nat, aliases: set<string>)
    requires i < |n.children|
    ensures EscapingUse(n, [i], aliases) <==> IsAliasId(n.children[i], aliases) && Enters(n, i, aliases)
  {
    hide Enters, IsAliasId;
    EnteredBelow(n, i, [], aliases);
    assert [i] + [] == [i] && [i][1..] == [];
    assert NodeAt(n, [i]) == Some(n.children[i]);
  }

  /** The visit's answer is a fact about places in the tree: it reports exactly an escaping use. */
  lemma {:induction false} EscapesIff(n: Node, aliases: set<string>)
    ensures Escapes(n, aliases) <==> exists path :: EscapingUse(n, path, aliases)
    decreases n
  {
    hide Escapes, Entered, Enters, IsAliasId;
    forall path | EscapingUse(n, path, aliases) ensures Escapes(n, aliases) {
      var i := path[0];
      PathSplit(path);
      if |path| == 1 {
        UseHere(n, i, aliases);
      } else {
        UseBelow(n, i, path[1..], aliases);
        EscapesIff(n.children[i], aliases);
      }
      EscapesStep(n, i, aliases);
    }
    if Escapes(n, aliases) {
      var i := EscapingChild(n, aliases);
      if IsAliasId(n.children[i], aliases) {
        UseHere(n, i, aliases);
      } else {
        EscapesIff(n.children[i], aliases);
        var path :| EscapingUse(n.children[i], path, aliases);
        NotHere(n.children[i], aliases);
        UseBelow(n, i, path, aliases);
      }
    }
  }

  lemma PathSplit(path: seq<nat>)
    requires path != []
    ensures path == [path[0]] + path[1..] && (|path| == 1 ==> path == [path[0]])
  {
  }

  lemma NotHere(n: Node, aliases: set<string>)
    ensures !EscapingUse(n, [], aliases)
  {
  }

  lemma EscapesStep(n: Node, i: nat, aliases: set<string>)
    requires i < |n.children| && Enters(n, i, aliases)
        && (IsAliasId(n.children[i], aliases) || Escapes(n.children[i], aliases))
    ensures Escapes(n, aliases)
  {
  }

  lemma EscapingChild(n: Node, aliases: set<string>) returns (i: nat)
    requires Escapes(n, aliases)
    ensures i < |n.children| && Enters(n, i, aliases)
        && (IsAliasId(n.children[i], aliases) || Escapes(n.children[i], aliases))
  {
    if n.kind.MemberExpr? {
      i := 0;
    } else {
      i :| i < |n.children| && (IsAliasId(n.children[i], aliases) || Escapes(n.children[i], aliases));
    }
  }

  // ----- The answer, read off places in the tree -----

  /** At the end of this path stands the binding `b`. */
  predicate BindingAt(n: Node, path: seq<nat>, b: Bind) {
    && NodeAt(n, path).Some?
    && var m := NodeAt(n, path).value;
       m.kind in {LetDecl, MutDecl, AssignStmt}
           && b == Bind(BindingName(m.value), if m.children == [] then None else Some(m.children[0]))
  }

  lemma {:induction false} InSome(ns: seq<Node>, b: Bind)
    ensures b in BindsAll(ns) <==> exists i :: 0 <= i < |ns| && b in Binds(ns[i])
  {
    hide Binds;
    if ns != [] {
      InSome(ns[1..], b);
      if i :| 0 <= i < |ns[1..]| && b in Binds(ns[1..][i]) { assert ns[i + 1] == ns[1..][i]; }
      if i :| 0 < i < |ns| && b in Binds(ns[i]) { assert ns[1..][i - 1] == ns[i]; }
    }
  }

  lemma {:induction false} BindsIff(n: Node, b: Bind)
    ensures b in Binds(n) <==> exists path :: BindingAt(n, path, b)
    decreases n
  {
    hide BindingName, BindsAll;
    InSome(n.children, b);
    forall path | BindingAt(n, path, b) ensures b in Binds(n) {
      if path != [] {
        assert BindingAt(n.children[path[0]], path[1..], b);
        BindsIff(n.children[path[0]], b);
      }
    }
    if i :| 0 <= i < |n.children| && b in Binds(n.children[i]) {
      BindsIff(n.children[i], b);
      var path :| BindingAt(n.children[i], path, b);
      var longer: seq<nat> := [i] + path;
      assert longer[1..] == path;
      assert BindingAt(n, longer, b);
    } else if b in Binds(n) {
      assert BindingAt(n, [], b);
    }
  }

  /** Each name of the chain is bound, somewhere in the body, to the bare name before it. */
  ghost predicate PassedOn(body: Node, chain: seq<string>) {
    && chain != []
    && forall k :: 0 <= k < |chain| - 1 ==> Hands(body, chain[k], chain[k + 1])
  }

  ghost predicate Hands(body: Node, a: string, x: string) {
    x != "" && exists path, b :: BindingAt(body, path, b) && HandsBy(b, a, x)
  }

  predicate HandsBy(b: Bind, a: string, x: string) {
    b.name == x && b.init.Some? && b.init.value.kind.Identifier? && b.init.value.value == a
  }

  /** The record's handle can be passed on from name to name until `x` holds it. */
  ghost predicate Receives(body: Node, record: string, x: string) {
    exists chain :: PassedOn(body, chain) && chain[0] == record && chain[|chain| - 1] == x
  }

  lemma OneMoreName(body: Node, record: string, a: string, x: string)
    requires Receives(body, record, a) && Hands(body, a, x)
    ensures Receives(body, record, x)
  {
    hide Hands;
    var chain :| PassedOn(body, chain) && chain[0] == record && chain[|chain| - 1] == a;
    assert PassedOn(body, chain + [x]);
  }

  lemma {:induction false} ChainInside(body: Node, chain: seq<string>, aliases: set<string>)
    requires PassedOn(body, chain) && chain[0] in aliases && Closed(Binds(body), aliases)
    ensures chain[|chain| - 1] in aliases
    decreases |chain|
  {
    if |chain| > 1 {
      assert Hands(body, chain[0], chain[1]);
      var path, b :| BindingAt(body, path, b) && HandsBy(b, chain[0], chain[1]);
      BindsIff(body, b);
      hide Binds, BindingAt;
      ChainInside(body, chain[1..], aliases);
    }
  }

  /** The alias set holds exactly the names that the record is passed on to. */
  lemma AliasesAreReceivers(record: string, body: Node, aliases: set<string>)
    requires IsAliasSet(record, Binds(body), aliases)
    ensures forall x :: x in aliases <==> Receives(body, record, x)
  {
    hide Binds, Hands, BindingAt;
    forall x | Receives(body, record, x) ensures x in aliases {
      var chain :| PassedOn(body, chain) && chain[0] == record && chain[|chain| - 1] == x;
      ChainInside(body, chain, aliases);
    }
    var reached := set x | x in aliases && Receives(body, record, x);
    assert record in reached by { assert PassedOn(body, [record]); }
    forall b | b in Binds(body) && Passes(b, reached) ensures b.name in reached {
      HandedOn(body, b);
      OneMoreName(body, record, b.init.value.value, b.name);
    }
  }

  lemma HandedOn(body: Node, b: Bind)
    requires b in Binds(body) && b.name != "" && b.init.Some? && b.init.value.kind.Identifier?
    ensures Hands(body, b.init.value.value, b.name)
  {
    BindsIff(body, b);
  }

  /** The per-record answer is yes exactly when some name that the record is passed on to stands, where the visit looks,
      anywhere but as the receiver of a field read or the whole initialiser of a binding. */
  lemma AnswerIff(record: string, body: Node, aliases: set<string>)
    requires IsAliasSet(record, Binds(body), aliases)
    ensures Escapes(body, aliases) <==> exists path :: EscapingUse(body, path, aliases)
    ensures forall x :: x in aliases <==> Receives(body, record, x)
  {
    hide Binds, EscapingUse, Escapes;
    EscapesIff(body, aliases);
    AliasesAreReceivers(record, body, aliases);
  }

  method Visit(n: Node, aliases: set<string>) returns (escaped: bool)
    ensures escaped == Escapes(n, aliases)
    decreases n
  {
    if n.kind.MemberExpr? {
      if n.children == [] || IsAliasId(n.children[0], aliases) {
        return false;
      }
      escaped := Visit(n.children[0], aliases);
      return;
    }
    if IsBinding(n) && n.children != [] && IsAliasId(n.children[0], aliases) {
      return false;
    }
    for i := 0 to |n.children|
      invariant forall k :: 0 <= k < i ==> !IsAliasId(n.children[k], aliases)
    {
      if IsAliasId(n.children[i], aliases) {
        return true;
      }
    }
    for i := 0 to |n.children|
      invariant forall k :: 0 <= k < i ==> !Escapes(n.children[k], aliases)
    {
      var inner := Visit(n.children[i], aliases);
      if inner {
        return true;
      }
    }
    return false;
  }

  method RecordEscapes(name: string, body: Node) returns (escaped: bool)
    ensures exists aliases: set<string> :: IsAliasSet(name, Binds(body), aliases) && escaped == Escapes(body, aliases)
  {
    var aliases := ComputeAliases(name, body);
    escaped := Visit(body, aliases);
  }

  // ----- The window gate -----

  type FieldTypes = map<string, map<string, string>>

  /** Every record literal of a subtree, named or not, in tree order. */
  function RecordLiterals(n: Node): seq<Node>
    decreases n
  {
    (if IsRecordLiteral(n) then [n] else []) + RecordLiteralsAll(n.children)
  }

  function RecordLiteralsAll(ns: seq<Node>): seq<Node>
    decreases ns
  {
    if ns == [] then [] else RecordLiterals(ns[0]) + RecordLiteralsAll(ns[1..])
  }

  lemma {:induction false} LiteralInSome(ns: seq<Node>, m: Node)
    ensures m in RecordLiteralsAll(ns) <==> exists i :: 0 <= i < |ns| && m in RecordLiterals(ns[i])
  {
    hide RecordLiterals;
    if ns != [] {
      LiteralInSome(ns[1..], m);
      if i :| 0 <= i < |ns[1..]| && m in RecordLiterals(ns[1..][i]) { assert ns[i + 1] == ns[1..][i]; }
      if i :| 0 < i < |ns| && m in RecordLiterals(ns[i]) { assert ns[1..][i - 1] == ns[i]; }
    }
  }

  predicate Stands(n: Node, path: seq<nat>, m: Node) {
    NodeAt(n, path).Some? && NodeAt(n, path).value == m
  }

  /** The literals of a subtree are the nodes that allocate a record, wherever they stand. */
  lemma {:induction false} LiteralsIff(n: Node, m: Node)
    ensures m in RecordLiterals(n) <==> m.kind.CallExpr? && m.value in {"#record", "#record-update"} && exists path :: Stands(n, path, m)
    decreases n
  {
    hide RecordLiteralsAll;
    LiteralInSome(n.children, m);
    forall path | Stands(n, path, m) && IsRecordLiteral(m) ensures m in RecordLiterals(n) {
      if path != [] {
        assert Stands(n.children[path[0]], path[1..], m);
        LiteralsIff(n.children[path[0]], m);
      } else {
        assert [n] == [m];
      }
    }
    if i :| 0 <= i < |n.children| && m in RecordLiterals(n.children[i]) {
      LiteralsIff(n.children[i], m);
      var path :| Stands(n.children[i], path, m);
      var longer: seq<nat> := [i] + path;
      assert longer[1..] == path;
      assert Stands(n, longer, m);
    } else if m in RecordLiterals(n) {
      assert Stands(n, [], m);
    }
  }

  predicate ProvenScalar(ty: string) {
    ty == "Int" || ty == "Bool"
  }

  /** The literal's type is known, has fields, and all of them are stored by value. */
  predicate ScalarOnly(literal: Node, types: FieldTypes) {
    && literal.typeName != "" && literal.typeName in types && types[literal.typeName] != map[]
    && forall f :: f in types[literal.typeName] ==> ProvenScalar(types[literal.typeName][f])
  }

  method WindowIsArenaSafe(window: Node, types: FieldTypes) returns (safe: bool)
    ensures safe <==> forall literal :: literal in RecordLiterals(window) ==> ScalarOnly(literal, types)
  {
    var literals := RecordLiterals(window);
    for i := 0 to |literals|
      invariant forall k :: 0 <= k < i ==> ScalarOnly(literals[k], types)
    {
      if !ScalarOnly(literals[i], types) {
        return false;
      }
    }
    return true;
  }
}
