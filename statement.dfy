/** The control-flow rules of statements (asteria/src/syntax/statement.cpp): how a
    statement list, a branch, a `switch`, the three loops and the ranged `for each` run
    their blocks and which status codes each of them consumes; how `break`, `continue`
    and `return` lower to status codes; the check that keeps `__` names reserved; and
    the conversion of a result to a temporary.

    The runtime around the executors (executive contexts, the reference stack, the
    nodes of expressions) is reached through an `Env`: a context of any type `C` is
    threaded through every call, so each executor is modelled exactly up to what the
    nodes and expressions it runs do to that context. */
module Statements {
  import opened Wrappers
  import opened AirStatus
  import opened Values
  import R = References

  /** An AIR node, known by its position in the program; what it does is `Env.run`. */
  type AirNode = nat

  /** What the executors ask of the rest of the runtime:
      - `run`: executes one node of a statement list (`Air_Node::execute`);
      - `cond`: evaluates a condition and reads `test()` of the result;
      - `step`: evaluates an expression and discards the result;
      - `matches`: evaluates a `case` label and compares it with the control value;
      - `range`: evaluates the range initializer of a `for each` and reads it;
      - `order`: the iteration order of an object's members;
      - `declare`: binds a name to a null reference in the current scope;
      - `bind`: sets the key variable and the mapped reference for one iteration. */
  datatype Env<!C> = Env(
    run: (AirNode, C) -> (C, Status),
    cond: (seq<AirNode>, C) -> (C, bool),
    step: (seq<AirNode>, C) -> C,
    matches: (seq<AirNode>, C) -> (C, bool),
    range: (seq<AirNode>, C) -> (C, Value),
    order: map<string, Value> -> seq<string>,
    declare: (C, string) -> C,
    bind: (C, Value, R.Modifier) -> C)

  /** The runtime errors the executors themselves throw. */
  datatype StmtError =
    | ReservedName(name: string, desc: string)
    | MultipleDefaults
    | BadRangeType(rangeType: Type)

  /** A reference as the stack and the scopes hold it: a root and its modifiers. */
  datatype Ref = Ref(root: R.Root, mods: seq<R.Modifier>)

  const NullRef := Ref(R.RootNull, [])

  // ---------------------------------------------------------------------------
  // Named references.

  /** Names starting with two underscores belong to the implementation. */
  predicate IsReserved(name: string)
  {
    |name| >= 2 && name[..2] == "__"
  }

  /** The decision `do_safe_set_named_reference` takes for a name: an empty name is not
      bound, a reserved one is an error, any other is bound. */
  function CheckName(name: string, desc: string): (r: Result<bool, StmtError>)
    ensures r.Failure? <==> IsReserved(name)
    ensures r.Failure? ==> r.error == ReservedName(name, desc)
    ensures r.Success? ==> (r.value <==> name != "")
  {
    if name == "" then Success(false)
    else if IsReserved(name) then Failure(ReservedName(name, desc))
    else Success(true)
  }

  /** The named references of a scope (`Abstract_Context`). */
  class Scope {
    var refs: map<string, Ref>

    constructor ()
      ensures refs == map[]
    {
      refs := map[];
    }
  }

  /** The list a block records its declared names in. */
  class NameList {
    var names: seq<string>

    constructor ()
      ensures names == []
    {
      names := [];
    }
  }

  /** `do_safe_set_named_reference`: an empty name changes nothing; a reserved name is
      refused and changes nothing; any other name is recorded, when a list is given, and
      bound to `xref`, replacing what it named before. */
  method SafeSetNamedReference(namesOut: Option<NameList>, scope: Scope, desc: string,
                               name: string, xref: Ref)
    returns (r: Result<(), StmtError>)
    modifies scope, if namesOut.Some? then {namesOut.value} else {}
    ensures r.Failure? <==> IsReserved(name)
    ensures r.Failure? ==> r.error == ReservedName(name, desc)
    ensures name == "" || IsReserved(name) ==>
      scope.refs == old(scope.refs) &&
      (namesOut.Some? ==> namesOut.value.names == old(namesOut.value.names))
    ensures name != "" && !IsReserved(name) ==>
      scope.refs == old(scope.refs)[name := xref] &&
      (namesOut.Some? ==> namesOut.value.names == old(namesOut.value.names) + [name])
  {
    match CheckName(name, desc) {
      case Failure(e) =>
        r := Failure(e);
      case Success(bindIt) =>
        if bindIt {
          if namesOut.Some? {
            namesOut.value.names := namesOut.value.names + [name];
          }
          scope.refs := scope.refs[name := xref];
        }
        r := Success(());
    }
  }

  /** Binds each of `names` in turn, as the executors do for the names of skipped
      `switch` clauses and for the names of a `for each`; the first reserved name stops
      it. */
  function Inject<C>(env: Env<C>, names: seq<string>, desc: string, c: C): (r: Result<C, StmtError>)
    ensures r.Failure? <==> exists k :: 0 <= k < |names| && IsReserved(names[k])
    ensures r.Failure? ==> r.error.ReservedName? && r.error.name in names &&
                           IsReserved(r.error.name) && r.error.desc == desc
    decreases |names|
  {
    if names == [] then Success(c)
    else match CheckName(names[0], desc)
      case Failure(e) => Failure(e)
      case Success(bindIt) =>
        var r := Inject(env, names[1..], desc, if bindIt then env.declare(c, names[0]) else c);
        assert forall k :: 0 <= k < |names| - 1 ==> names[1..][k] == names[k + 1];
        r
  }

  // ---------------------------------------------------------------------------
  // Statement lists and branches.

  /** `do_execute_statement_list`: runs the nodes in order until one returns a status
      other than `next`, which becomes the result; `next` when every node returns it. */
  function StatementList<C>(env: Env<C>, code: seq<AirNode>, c: C): (C, Status)
    decreases |code|
  {
    if code == [] then (c, Next)
    else
      var (c1, s) := env.run(code[0], c);
      if s != Next then (c1, s) else StatementList(env, code[1..], c1)
  }

  /** Running `a + b` runs `a`, and runs `b` only when `a` ends with `next`. */
  lemma {:induction false} StatementListConcat<C>(env: Env<C>, a: seq<AirNode>, b: seq<AirNode>, c: C)
    ensures StatementList(env, a + b, c) ==
      var (c1, s) := StatementList(env, a, c);
      if s != Next then (c1, s) else StatementList(env, b, c1)
    decreases |a|
  {
    if a != [] {
      assert (a + b)[0] == a[0] && (a + b)[1..] == a[1..] + b;
      var (c1, s) := env.run(a[0], c);
      if s == Next {
        StatementListConcat(env, a[1..], b, c1);
      }
    } else {
      assert a + b == b;
    }
  }

  /** A statement list ends with `next` exactly when it ran to its end. */
  lemma {:induction false} StatementListStopsAtFirst<C>(env: Env<C>, code: seq<AirNode>, c: C, i: nat)
    requires i < |code|
    requires StatementList(env, code[..i], c).1 == Next
    requires env.run(code[i], StatementList(env, code[..i], c).0).1 != Next
    ensures StatementList(env, code, c) == env.run(code[i], StatementList(env, code[..i], c).0)
  {
    assert code == code[..i] + code[i..];
    StatementListConcat(env, code[..i], code[i..], c);
    assert code[i..][0] == code[i];
  }

  /** The loop of `do_execute_statement_list`. */
  method ExecuteStatementList<C>(env: Env<C>, code: seq<AirNode>, c: C) returns (c': C, status: Status)
    ensures (c', status) == StatementList(env, code, c)
  {
    c', status := c, Next;
    var i := 0;
    while i < |code|
      invariant 0 <= i <= |code|
      invariant StatementList(env, code[i..], c') == StatementList(env, code, c)
    {
      assert code[i..][0] == code[i] && code[i..][1..] == code[i + 1..];
      var (c1, s) := env.run(code[i], c');
      if s != Next {
        return c1, s;
      }
      c', i := c1, i + 1;
    }
    assert code[i..] == [];
  }

  /** `do_execute_branch`: runs the true block exactly when `test != negative`, the false
      block otherwise, and returns the block's status unchanged. */
  method ExecuteBranch<C>(env: Env<C>, test: bool, negative: bool, codeTrue: seq<AirNode>,
                          codeFalse: seq<AirNode>, c: C)
    returns (c': C, status: Status)
    ensures test != negative ==> (c', status) == StatementList(env, codeTrue, c)
    ensures test == negative ==> (c', status) == StatementList(env, codeFalse, c)
  {
    if test != negative {
      c', status := ExecuteStatementList(env, codeTrue, c);
      if status != Next {
        return;
      }
      status := Next;
      return;
    }
    c', status := ExecuteStatementList(env, codeFalse, c);
    if status != Next {
      return;
    }
    status := Next;
  }

  // ---------------------------------------------------------------------------
  // Loops.

  /** The two families of loops: `while` and `do ... while`, and `for` and `for each`. */
  datatype LoopKind = WhileKind | ForKind

  /** The statuses that end a loop of kind `k` normally. */
  predicate Exits(k: LoopKind, s: Status)
  {
    s == BreakUnspec || s == (if k == WhileKind then BreakWhile else BreakFor)
  }

  /** The statuses after which a loop of kind `k` goes on with its next iteration. */
  predicate Continues(k: LoopKind, s: Status)
  {
    s == Next || s == ContinueUnspec || s == (if k == WhileKind then ContinueWhile else ContinueFor)
  }

  /** The statuses a loop of kind `k` hands on to its caller. */
  predicate Forwarded(k: LoopKind, s: Status)
  {
    !Exits(k, s) && !Continues(k, s)
  }

  /** The outcome of a loop run with a bound on its iterations. */
  datatype Run<C> = Finished(ctx: C, status: Status) | OutOfFuel

  /** `do_execute_while`, allowed `fuel` checks of the condition. */
  function While<C>(env: Env<C>, negative: bool, cond: seq<AirNode>, body: seq<AirNode>,
                    fuel: nat, c: C): Run<C>
    decreases fuel
  {
    if fuel == 0 then OutOfFuel
    else
      var (c1, t) := env.cond(cond, c);
      if t == negative then Finished(c1, Next)
      else
        var (c2, s) := StatementList(env, body, c1);
        if Exits(WhileKind, s) then Finished(c2, Next)
        else if !Continues(WhileKind, s) then Finished(c2, s)
        else While(env, negative, cond, body, fuel - 1, c2)
  }

  /** `do_execute_do_while`, allowed `fuel` runs of the body. */
  function DoWhile<C>(env: Env<C>, body: seq<AirNode>, negative: bool, cond: seq<AirNode>,
                      fuel: nat, c: C): Run<C>
    decreases fuel
  {
    if fuel == 0 then OutOfFuel
    else
      var (c1, s) := StatementList(env, body, c);
      if Exits(WhileKind, s) then Finished(c1, Next)
      else if !Continues(WhileKind, s) then Finished(c1, s)
      else
        var (c2, t) := env.cond(cond, c1);
        if t == negative then Finished(c2, Next)
        else DoWhile(env, body, negative, cond, fuel - 1, c2)
  }

  /** The loop of `do_execute_for` after its initializer, allowed `fuel` iterations; an
      empty condition is not evaluated and counts as true. */
  function ForLoop<C>(env: Env<C>, cond: seq<AirNode>, step: seq<AirNode>, body: seq<AirNode>,
                      fuel: nat, c: C): Run<C>
    decreases fuel
  {
    if fuel == 0 then OutOfFuel
    else
      var (c1, t) := if cond == [] then (c, true) else env.cond(cond, c);
      if !t then Finished(c1, Next)
      else
        var (c2, s) := StatementList(env, body, c1);
        if Exits(ForKind, s) then Finished(c2, Next)
        else if !Continues(ForKind, s) then Finished(c2, s)
        else ForLoop(env, cond, step, body, fuel - 1, env.step(step, c2))
  }

  /** `do_execute_for`: the initializer runs once and its status is discarded. */
  function For<C>(env: Env<C>, init: seq<AirNode>, cond: seq<AirNode>, step: seq<AirNode>,
                  body: seq<AirNode>, fuel: nat, c: C): Run<C>
  {
    ForLoop(env, cond, step, body, fuel, StatementList(env, init, c).0)
  }

  /** The `for(;;)` of `do_execute_while`. */
  method ExecuteWhile<C>(env: Env<C>, negative: bool, cond: seq<AirNode>, body: seq<AirNode>,
                         fuel: nat, c: C)
    returns (r: Run<C>)
    ensures r == While(env, negative, cond, body, fuel, c)
  {
    var f, cur := fuel, c;
    while true
      invariant While(env, negative, cond, body, f, cur) == While(env, negative, cond, body, fuel, c)
      decreases f
    {
      if f == 0 {
        return OutOfFuel;
      }
      var (c1, t) := env.cond(cond, cur);
      if t == negative {
        return Finished(c1, Next);
      }
      var c2, s := ExecuteStatementList(env, body, c1);
      if Exits(WhileKind, s) {
        return Finished(c2, Next);
      }
      if !Continues(WhileKind, s) {
        return Finished(c2, s);
      }
      f, cur := f - 1, c2;
    }
  }

  /** The `for(;;)` of `do_execute_do_while`. */
  method ExecuteDoWhile<C>(env: Env<C>, body: seq<AirNode>, negative: bool, cond: seq<AirNode>,
                           fuel: nat, c: C)
    returns (r: Run<C>)
    ensures r == DoWhile(env, body, negative, cond, fuel, c)
  {
    var f, cur := fuel, c;
    while true
      invariant DoWhile(env, body, negative, cond, f, cur) == DoWhile(env, body, negative, cond, fuel, c)
      decreases f
    {
      if f == 0 {
        return OutOfFuel;
      }
      var c1, s := ExecuteStatementList(env, body, cur);
      if Exits(WhileKind, s) {
        return Finished(c1, Next);
      }
      if !Continues(WhileKind, s) {
        return Finished(c1, s);
      }
      var (c2, t) := env.cond(cond, c1);
      if t == negative {
        return Finished(c2, Next);
      }
      f, cur := f - 1, c2;
    }
  }

  /** `do_execute_for`. */
  method ExecuteFor<C>(env: Env<C>, init: seq<AirNode>, cond: seq<AirNode>, step: seq<AirNode>,
                       body: seq<AirNode>, fuel: nat, c: C)
    returns (r: Run<C>)
    ensures r == For(env, init, cond, step, body, fuel, c)
  {
    var cur, _ := ExecuteStatementList(env, init, c);
    var f := fuel;
    ghost var c0 := cur;
    while true
      invariant ForLoop(env, cond, step, body, f, cur) == ForLoop(env, cond, step, body, fuel, c0)
      invariant c0 == StatementList(env, init, c).0
      decreases f
    {
      if f == 0 {
        return OutOfFuel;
      }
      var c1 := cur;
      var t := true;
      if cond != [] {
        c1, t := env.cond(cond, cur).0, env.cond(cond, cur).1;
      }
      if !t {
        return Finished(c1, Next);
      }
      var c2, s := ExecuteStatementList(env, body, c1);
      if Exits(ForKind, s) {
        return Finished(c2, Next);
      }
      if !Continues(ForKind, s) {
        return Finished(c2, s);
      }
      f, cur := f - 1, env.step(step, c2);
    }
  }

  /** A `while` loop consumes its own breaks and continues: what it returns is `next` or
      a status it hands on. */
  lemma {:induction false} WhileConsumesItsJumps<C>(env: Env<C>, negative: bool, cond: seq<AirNode>,
                                                    body: seq<AirNode>, fuel: nat, c: C)
    ensures var r := While(env, negative, cond, body, fuel, c);
      r.Finished? ==> r.status == Next || Forwarded(WhileKind, r.status)
    decreases fuel
  {
    if fuel > 0 {
      var (c1, t) := env.cond(cond, c);
      if t != negative {
        var (c2, s) := StatementList(env, body, c1);
        if !Exits(WhileKind, s) && Continues(WhileKind, s) {
          WhileConsumesItsJumps(env, negative, cond, body, fuel - 1, c2);
        }
      }
    }
  }

  /** The same for `do ... while`. */
  lemma {:induction false} DoWhileConsumesItsJumps<C>(env: Env<C>, body: seq<AirNode>, negative: bool,
                                                      cond: seq<AirNode>, fuel: nat, c: C)
    ensures var r := DoWhile(env, body, negative, cond, fuel, c);
      r.Finished? ==> r.status == Next || Forwarded(WhileKind, r.status)
    decreases fuel
  {
    if fuel > 0 {
      var (c1, s) := StatementList(env, body, c);
      if !Exits(WhileKind, s) && Continues(WhileKind, s) {
        var (c2, t) := env.cond(cond, c1);
        if t != negative {
          DoWhileConsumesItsJumps(env, body, negative, cond, fuel - 1, c2);
        }
      }
    }
  }

  /** The same for `for`. */
  lemma {:induction false} ForConsumesItsJumps<C>(env: Env<C>, cond: seq<AirNode>, step: seq<AirNode>,
                                                  body: seq<AirNode>, fuel: nat, c: C)
    ensures var r := ForLoop(env, cond, step, body, fuel, c);
      r.Finished? ==> r.status == Next || Forwarded(ForKind, r.status)
    decreases fuel
  {
    if fuel > 0 {
      var (c1, t) := if cond == [] then (c, true) else env.cond(cond, c);
      if t {
        var (c2, s) := StatementList(env, body, c1);
        if !Exits(ForKind, s) && Continues(ForKind, s) {
          ForConsumesItsJumps(env, cond, step, body, fuel - 1, env.step(step, c2));
        }
      }
    }
  }

  /** Once a `while` loop finishes within some bound, every larger bound gives the same
      outcome: the bound only cuts off loops that have not ended yet. */
  lemma {:induction false} WhileFuelMonotone<C>(env: Env<C>, negative: bool, cond: seq<AirNode>,
                                                body: seq<AirNode>, fuel: nat, more: nat, c: C)
    requires fuel <= more
    requires While(env, negative, cond, body, fuel, c).Finished?
    ensures While(env, negative, cond, body, more, c) == While(env, negative, cond, body, fuel, c)
    decreases fuel
  {
    var (c1, t) := env.cond(cond, c);
    if t != negative {
      var (c2, s) := StatementList(env, body, c1);
      if !Exits(WhileKind, s) && Continues(WhileKind, s) {
        WhileFuelMonotone(env, negative, cond, body, fuel - 1, more - 1, c2);
      }
    }
  }

  /** The same for `do ... while`. */
  lemma {:induction false} DoWhileFuelMonotone<C>(env: Env<C>, body: seq<AirNode>, negative: bool,
                                                  cond: seq<AirNode>, fuel: nat, more: nat, c: C)
    requires fuel <= more
    requires DoWhile(env, body, negative, cond, fuel, c).Finished?
    ensures DoWhile(env, body, negative, cond, more, c) == DoWhile(env, body, negative, cond, fuel, c)
    decreases fuel
  {
    var (c1, s) := StatementList(env, body, c);
    if !Exits(WhileKind, s) && Continues(WhileKind, s) {
      var (c2, t) := env.cond(cond, c1);
      if t != negative {
        DoWhileFuelMonotone(env, body, negative, cond, fuel - 1, more - 1, c2);
      }
    }
  }

  /** The same for `for`. */
  lemma {:induction false} ForFuelMonotone<C>(env: Env<C>, cond: seq<AirNode>, step: seq<AirNode>,
                                              body: seq<AirNode>, fuel: nat, more: nat, c: C)
    requires fuel <= more
    requires ForLoop(env, cond, step, body, fuel, c).Finished?
    ensures ForLoop(env, cond, step, body, more, c) == ForLoop(env, cond, step, body, fuel, c)
    decreases fuel
  {
    var (c1, t) := if cond == [] then (c, true) else env.cond(cond, c);
    if t {
      var (c2, s) := StatementList(env, body, c1);
      if !Exits(ForKind, s) && Continues(ForKind, s) {
        ForFuelMonotone(env, cond, step, body, fuel - 1, more - 1, env.step(step, c2));
      }
    }
  }

  /** `for (;;)` whose body always ends with `next` never finishes, however large the
      bound: an empty condition is true. */
  lemma {:induction false} EmptyConditionNeverEnds<C>(env: Env<C>, step: seq<AirNode>, body: seq<AirNode>,
                                                      fuel: nat, c: C)
    requires forall c' :: StatementList(env, body, c').1 == Next
    ensures ForLoop(env, [], step, body, fuel, c) == OutOfFuel
    decreases fuel
  {
    if fuel > 0 {
      var (c2, s) := StatementList(env, body, c);
      assert s == Next;
      EmptyConditionNeverEnds(env, step, body, fuel - 1, env.step(step, c2));
    }
  }

  // ---------------------------------------------------------------------------
  // The ranged `for each`.

  /** The largest number of elements an array index (a 64-bit `ptrdiff_t`) can count. */
  const IndexLimit: nat := 0x8000_0000_0000_0000

  /** The key and the modifier of each iteration over `range`: index `i` for each element
      of an array, key `k` for each member of an object in the iteration order; any other
      range is an error. */
  function Elements(range: Value, order: map<string, Value> -> seq<string>)
    : (r: Result<seq<(Value, R.Modifier)>, StmtError>)
    ensures r.Failure? <==> !(range.Array? || range.Object?)
    ensures r.Failure? ==> r.error == BadRangeType(TypeOf(range))
  {
    match range
    case Array(elems) =>
      var n := if |elems| < IndexLimit then |elems| else IndexLimit;
      Success(seq(n, i requires 0 <= i < n => (Integer(i as Int64), R.ArrayIndex(i as Int64))))
    case Object(members) =>
      var keys := order(members);
      Success(seq(|keys|, i requires 0 <= i < |keys| => (String(keys[i]), R.ObjectKey(keys[i]))))
    case _ => Failure(BadRangeType(TypeOf(range)))
  }

  /** An iteration order of an object: it lists exactly its keys. */
  predicate ListsKeys(keys: seq<string>, members: map<string, Value>)
  {
    (forall k :: k in members ==> k in keys) && (forall k :: k in keys ==> k in members)
  }

  /** Every iteration of a `for each` addresses an element that exists in the range, with
      the key variable naming it; and every element of an array shorter than the index
      limit, or every member of an object whose order lists its keys, gets an
      iteration. */
  lemma IterationVisitsEveryElement(range: Value, order: map<string, Value> -> seq<string>)
    requires range.Array? || range.Object?
    ensures var es := Elements(range, order).value;
      (range.Array? && |range.elems| < IndexLimit ==>
         |es| == |range.elems| &&
         forall j :: 0 <= j < |es| ==>
           es[j].0 == Integer(j as Int64) && R.ReadStep(range, es[j].1) == Success(Some(range.elems[j]))) &&
      (range.Object? ==>
         (forall j :: 0 <= j < |es| ==>
            es[j].0.String? && es[j].1 == R.ObjectKey(es[j].0.s) &&
            (ListsKeys(order(range.members), range.members) ==>
               R.ReadStep(range, es[j].1) == Success(Some(range.members[es[j].0.s])))) &&
         (ListsKeys(order(range.members), range.members) ==>
            forall k :: k in range.members ==> exists j :: 0 <= j < |es| && es[j].1 == R.ObjectKey(k)))
  {
    var es := Elements(range, order).value;
    if range.Object? {
      var keys := order(range.members);
      if ListsKeys(keys, range.members) {
        forall k | k in range.members
          ensures exists j :: 0 <= j < |es| && es[j].1 == R.ObjectKey(k)
        {
          assert k in keys;
          var j :| 0 <= j < |keys| && keys[j] == k;
          assert es[j].1 == R.ObjectKey(k);
        }
      }
    }
  }

  /** The iterations of a `for each` from the first in `es`. */
  function ForEachFrom<C>(env: Env<C>, es: seq<(Value, R.Modifier)>, body: seq<AirNode>, c: C): (C, Status)
    decreases |es|
  {
    if es == [] then (c, Next)
    else
      var (c2, s) := StatementList(env, body, env.bind(c, es[0].0, es[0].1));
      if Exits(ForKind, s) then (c2, Next)
      else if !Continues(ForKind, s) then (c2, s)
      else ForEachFrom(env, es[1..], body, c2)
  }

  /** `do_execute_for_each`: binds the key variable and the mapped reference, evaluates
      the range, and runs the body once per element of an array or member of an
      object. */
  function ForEach<C>(env: Env<C>, keyName: string, mappedName: string, init: seq<AirNode>,
                      body: seq<AirNode>, c: C): Result<(C, Status), StmtError>
  {
    match Inject(env, [keyName], "key variable", c)
    case Failure(e) => Failure(e)
    case Success(c0) =>
      match Inject(env, [mappedName], "mapped reference", c0)
      case Failure(e) => Failure(e)
      case Success(c1) =>
        var (c2, range) := env.range(init, c1);
        match Elements(range, env.order)
        case Failure(e) => Failure(e)
        case Success(es) => Success(ForEachFrom(env, es, body, c2))
  }

  /** The loops of `do_execute_for_each`. */
  method ExecuteForEach<C>(env: Env<C>, keyName: string, mappedName: string, init: seq<AirNode>,
                           body: seq<AirNode>, c: C)
    returns (r: Result<(C, Status), StmtError>)
    ensures r == ForEach(env, keyName, mappedName, init, body, c)
  {
    var c0 :- Inject(env, [keyName], "key variable", c);
    var c1 :- Inject(env, [mappedName], "mapped reference", c0);
    var (c2, range) := env.range(init, c1);
    var es :- Elements(range, env.order);
    var i, cur := 0, c2;
    while i < |es|
      invariant 0 <= i <= |es|
      invariant ForEachFrom(env, es[i..], body, cur) == ForEachFrom(env, es, body, c2)
    {
      assert es[i..][0] == es[i] && es[i..][1..] == es[i + 1..];
      var c3, s := ExecuteStatementList(env, body, env.bind(cur, es[i].0, es[i].1));
      if Exits(ForKind, s) {
        return Success((c3, Next));
      }
      if !Continues(ForKind, s) {
        return Success((c3, s));
      }
      i, cur := i + 1, c3;
    }
    assert es[i..] == [];
    r := Success((cur, Next));
  }

  /** A `for each` consumes its own breaks and continues. */
  lemma {:induction false} ForEachConsumesItsJumps<C>(env: Env<C>, es: seq<(Value, R.Modifier)>,
                                                      body: seq<AirNode>, c: C)
    ensures var (_, s) := ForEachFrom(env, es, body, c); s == Next || Forwarded(ForKind, s)
    decreases |es|
  {
    if es != [] {
      var (c2, s) := StatementList(env, body, env.bind(c, es[0].0, es[0].1));
      if !Exits(ForKind, s) && Continues(ForKind, s) {
        ForEachConsumesItsJumps(env, es[1..], body, c2);
      }
    }
  }

  /** A range that is neither an array nor an object is refused, naming its type, once
      the names are accepted. */
  lemma ForEachRefusesOtherRanges<C>(env: Env<C>, keyName: string, mappedName: string,
                                     init: seq<AirNode>, body: seq<AirNode>, c: C, c1: C)
    requires !IsReserved(keyName) && !IsReserved(mappedName)
    requires Inject(env, [keyName], "key variable", c).Success?
    requires Inject(env, [mappedName], "mapped reference", Inject(env, [keyName], "key variable", c).value)
             == Success(c1)
    requires var v := env.range(init, c1).1; !v.Array? && !v.Object?
    ensures ForEach(env, keyName, mappedName, init, body, c)
            == Failure(BadRangeType(TypeOf(env.range(init, c1).1)))
  {
  }

  // ---------------------------------------------------------------------------
  // `switch`.

  /** An argument of a `do_execute_select` node: code, or the names a clause declares. */
  datatype Param = Code(code: seq<AirNode>) | Names(names: seq<string>)

  /** One clause of a `switch`: its label (empty for `default`), its body and the names
      its body declares. */
  datatype Clause = Clause(caseLabel: seq<AirNode>, body: seq<AirNode>, names: seq<string>)

  /** The arguments of a `switch` node come in triples: label, body, names. */
  predicate Triples(p: seq<Param>)
  {
    |p| % 3 == 0 && forall k :: 0 <= k < |p| ==> (p[k].Names? <==> k % 3 == 2)
  }

  /** How `generate_code` lays the clauses out, three arguments per clause. */
  function SwitchParams(clauses: seq<Clause>): (p: seq<Param>)
    ensures |p| == 3 * |clauses|
    decreases |clauses|
  {
    if clauses == [] then []
    else [Code(clauses[0].caseLabel), Code(clauses[0].body), Names(clauses[0].names)] + SwitchParams(clauses[1..])
  }

  /** The layout is a sequence of triples, and triple `j` holds clause `j`. */
  lemma {:induction false} SwitchParamsAreTriples(clauses: seq<Clause>)
    ensures Triples(SwitchParams(clauses))
    ensures forall j :: 0 <= j < |clauses| ==>
      SwitchParams(clauses)[3 * j] == Code(clauses[j].caseLabel) &&
      SwitchParams(clauses)[3 * j + 1] == Code(clauses[j].body) &&
      SwitchParams(clauses)[3 * j + 2] == Names(clauses[j].names)
    decreases |clauses|
  {
    if clauses != [] {
      SwitchParamsAreTriples(clauses[1..]);
      var p := SwitchParams(clauses);
      var rest := SwitchParams(clauses[1..]);
      assert p == [Code(clauses[0].caseLabel), Code(clauses[0].body), Names(clauses[0].names)] + rest;
      forall k | 3 <= k < |p|
        ensures p[k] == rest[k - 3]
      {
      }
      forall j | 1 <= j < |clauses|
        ensures p[3 * j] == rest[3 * (j - 1)] && p[3 * j + 1] == rest[3 * (j - 1) + 1]
             && p[3 * j + 2] == rest[3 * (j - 1) + 2]
      {
      }
    }
  }

  const SkippedVariable := "skipped variable"

  /** The first loop of `do_execute_select`, from the triple at `i`: the first `case`
      label that matches selects its clause; otherwise the `default` clause seen so far,
      if any. The names of every clause passed over are bound to null, and a second
      `default` is an error. */
  function FindClause<C>(env: Env<C>, p: seq<Param>, i: nat, def: Option<nat>, c: C)
    : Result<(Option<nat>, C), StmtError>
    requires Triples(p) && i % 3 == 0
    decreases |p| - i
  {
    if i >= |p| then Success((def, c))
    else
      assert p[i].Code? && p[i + 2].Names?;
      if p[i].code != [] then
        var (c1, eq) := env.matches(p[i].code, c);
        if eq then Success((Some(i), c1))
        else match Inject(env, p[i + 2].names, SkippedVariable, c1)
          case Failure(e) => Failure(e)
          case Success(c2) => FindClause(env, p, i + 3, def, c2)
      else if def.Some? then Failure(MultipleDefaults)
      else match Inject(env, p[i + 2].names, SkippedVariable, c)
        case Failure(e) => Failure(e)
        case Success(c2) => FindClause(env, p, i + 3, Some(i), c2)
  }

  /** Where `FindClause` stops is the start of a triple. */
  lemma {:induction false} FindClauseStartsTriple<C>(env: Env<C>, p: seq<Param>, i: nat, def: Option<nat>, c: C)
    requires Triples(p) && i % 3 == 0
    requires def.Some? ==> def.value % 3 == 0 && def.value < |p|
    requires FindClause(env, p, i, def, c).Success?
    ensures var (k, _) := FindClause(env, p, i, def, c).value;
      k.Some? ==> k.value % 3 == 0 && k.value < |p|
    decreases |p| - i
  {
    if i < |p| {
      assert p[i].Code? && p[i + 2].Names?;
      if p[i].code != [] {
        var (c1, eq) := env.matches(p[i].code, c);
        if !eq {
          FindClauseStartsTriple(env, p, i + 3, def, Inject(env, p[i + 2].names, SkippedVariable, c1).value);
        }
      } else if def.None? {
        FindClauseStartsTriple(env, p, i + 3, Some(i), Inject(env, p[i + 2].names, SkippedVariable, c).value);
      }
    }
  }

  /** The second loop of `do_execute_select`: runs the bodies from the selected clause on,
      falling through into the next clause, until a break out of the `switch` (which
      gives `next`) or any other status but `next` (which is handed on). */
  function RunClauses<C>(env: Env<C>, p: seq<Param>, i: nat, c: C): (C, Status)
    requires Triples(p) && i % 3 == 0 && i < |p|
    decreases |p| - i
  {
    assert p[i + 1].Code?;
    var (c1, s) := StatementList(env, p[i + 1].code, c);
    if s == BreakUnspec || s == BreakSwitch then (c1, Next)
    else if s != Next then (c1, s)
    else if i + 3 >= |p| then (c1, Next)
    else RunClauses(env, p, i + 3, c1)
  }

  /** `do_execute_select`. */
  function Select<C>(env: Env<C>, p: seq<Param>, c: C): Result<(C, Status), StmtError>
    requires Triples(p)
  {
    match FindClause(env, p, 0, None, c)
    case Failure(e) => Failure(e)
    case Success((None, c1)) => Success((c1, Next))
    case Success((Some(k), c1)) =>
      FindClauseStartsTriple(env, p, 0, None, c);
      Success(RunClauses(env, p, k, c1))
  }

  /** The two loops of `do_execute_select`. */
  method ExecuteSelect<C>(env: Env<C>, p: seq<Param>, c: C) returns (r: Result<(C, Status), StmtError>)
    requires Triples(p)
    ensures r == Select(env, p, c)
  {
    var idx: nat := 0;
    var def: Option<nat> := None;
    var cur := c;
    var start: nat := 0;
    while true
      invariant idx % 3 == 0 && idx <= |p|
      invariant def.Some? ==> def.value % 3 == 0 && def.value < |p|
      invariant FindClause(env, p, idx, def, cur) == FindClause(env, p, 0, None, c)
      decreases |p| - idx
    {
      if idx >= |p| {
        if def.None? {
          return Success((cur, Next));
        }
        start := def.value;
        break;
      }
      assert p[idx].Code? && p[idx + 2].Names?;
      var code := p[idx].code;
      if code != [] {
        var (c1, eq) := env.matches(code, cur);
        if eq {
          start, cur := idx, c1;
          break;
        }
        cur := c1;
      } else {
        if def.Some? {
          return Failure(MultipleDefaults);
        }
        def := Some(idx);
      }
      cur :- Inject(env, p[idx + 2].names, SkippedVariable, cur);
      idx := idx + 3;
    }
    FindClauseStartsTriple(env, p, 0, None, c);
    assert FindClause(env, p, 0, None, c) == Success((Some(start), cur));
    var k := start;
    while true
      invariant k % 3 == 0 && k < |p|
      invariant RunClauses(env, p, k, cur) == Select(env, p, c).value
      decreases |p| - k
    {
      assert p[k + 1].Code?;
      var c1, s := ExecuteStatementList(env, p[k + 1].code, cur);
      if s == BreakUnspec || s == BreakSwitch {
        return Success((c1, Next));
      }
      if s != Next {
        return Success((c1, s));
      }
      k, cur := k + 3, c1;
      if k >= |p| {
        return Success((cur, Next));
      }
    }
  }

  /** A `switch` consumes the breaks aimed at it: it never returns `break_unspec` or
      `break_switch`. */
  lemma {:induction false} RunClausesConsumesBreaks<C>(env: Env<C>, p: seq<Param>, i: nat, c: C)
    requires Triples(p) && i % 3 == 0 && i < |p|
    ensures var (_, s) := RunClauses(env, p, i, c); s != BreakUnspec && s != BreakSwitch
    decreases |p| - i
  {
    assert p[i + 1].Code?;
    var (c1, s) := StatementList(env, p[i + 1].code, c);
    if s == Next && i + 3 < |p| {
      RunClausesConsumesBreaks(env, p, i + 3, c1);
    }
  }

  lemma SelectConsumesBreaks<C>(env: Env<C>, p: seq<Param>, c: C)
    requires Triples(p)
    requires Select(env, p, c).Success?
    ensures Select(env, p, c).value.1 != BreakUnspec && Select(env, p, c).value.1 != BreakSwitch
  {
    match FindClause(env, p, 0, None, c)
    case Success((Some(k), c1)) =>
      FindClauseStartsTriple(env, p, 0, None, c);
      RunClausesConsumesBreaks(env, p, k, c1);
    case _ =>
  }

  /** With no `default` clause, no label that matches and no reserved name, the scan
      selects nothing. */
  lemma {:induction false} NoMatchNoDefaultSelectsNothing<C>(env: Env<C>, p: seq<Param>, i: nat, c: C)
    requires Triples(p) && i % 3 == 0
    requires forall k :: 0 <= k < |p| && k % 3 == 0 ==> p[k].code != []
    requires forall k :: 0 <= k < |p| && k % 3 == 2 ==> forall n :: n in p[k].names ==> !IsReserved(n)
    requires forall code, c' :: !env.matches(code, c').1
    ensures FindClause(env, p, i, None, c).Success?
    ensures FindClause(env, p, i, None, c).value.0 == None
    decreases |p| - i
  {
    if i < |p| {
      assert p[i].Code? && p[i + 2].Names? && p[i].code != [];
      var (c1, eq) := env.matches(p[i].code, c);
      assert !eq;
      var r := Inject(env, p[i + 2].names, SkippedVariable, c1);
      NoMatchNoDefaultSelectsNothing(env, p, i + 3, r.value);
    }
  }

  /** So such a `switch` skips its body and yields `next`. */
  lemma NoMatchNoDefaultIsNext<C>(env: Env<C>, p: seq<Param>, c: C)
    requires Triples(p)
    requires forall k :: 0 <= k < |p| && k % 3 == 0 ==> p[k].code != []
    requires forall k :: 0 <= k < |p| && k % 3 == 2 ==> forall n :: n in p[k].names ==> !IsReserved(n)
    requires forall code, c' :: !env.matches(code, c').1
    ensures Select(env, p, c).Success? && Select(env, p, c).value.1 == Next
  {
    NoMatchNoDefaultSelectsNothing(env, p, 0, c);
  }

  /** The scan reaching a `default` clause after one has been recorded stops with the
      multiple-`default` error. */
  lemma DefaultAfterDefaultFails<C>(env: Env<C>, p: seq<Param>, i: nat, d: nat, c: C)
    requires Triples(p) && i % 3 == 0 && i < |p| && p[i] == Code([])
    ensures FindClause(env, p, i, Some(d), c) == Failure(MultipleDefaults)
  {
  }

  /** A scan from triple `i`, with the `default` at `j` recorded once it is passed, goes
      on to the `default` at `k` when no label before `k` matches, no name before `k` is
      reserved and no other clause before `k` is a `default`. */
  lemma {:induction false} ScanReachesSecondDefault<C>(env: Env<C>, p: seq<Param>, i: nat, def: Option<nat>,
                                                     c: C, j: nat, k: nat)
    requires Triples(p) && i % 3 == 0 && j % 3 == 0 && k % 3 == 0 && j < k < |p| && i <= k
    requires p[j] == Code([]) && p[k] == Code([])
    requires def == (if i <= j then None else Some(j))
    requires forall m :: 0 <= m < k && m % 3 == 0 && m != j ==> p[m].code != []
    requires forall m, c' :: 0 <= m < k && m % 3 == 0 && m != j ==> !env.matches(p[m].code, c').1
    requires forall m :: 0 <= m < k && m % 3 == 2 ==> forall n :: n in p[m].names ==> !IsReserved(n)
    ensures FindClause(env, p, i, def, c) == Failure(MultipleDefaults)
    decreases k - i
  {
    if i == k {
      DefaultAfterDefaultFails(env, p, i, j, c);
    } else {
      assert p[i].Code? && p[i + 2].Names?;
      if i == j {
        var r := Inject(env, p[i + 2].names, SkippedVariable, c);
        assert r.Success?;
        ScanReachesSecondDefault(env, p, i + 3, Some(i), r.value, j, k);
      } else {
        var (c1, eq) := env.matches(p[i].code, c);
        assert !eq;
        var r := Inject(env, p[i + 2].names, SkippedVariable, c1);
        assert r.Success?;
        ScanReachesSecondDefault(env, p, i + 3, def, r.value, j, k);
      }
    }
  }

  /** A second `default` clause is refused whenever the scan gets to it: when no label
      before it matches and no name before it is reserved, the `switch` fails with the
      multiple-`default` error, wherever the two clauses stand. */
  lemma SecondDefaultIsAnError<C>(env: Env<C>, p: seq<Param>, c: C, j: nat, k: nat)
    requires Triples(p) && j % 3 == 0 && k % 3 == 0 && j < k < |p|
    requires p[j] == Code([]) && p[k] == Code([])
    requires forall m :: 0 <= m < k && m % 3 == 0 && m != j ==> p[m].code != []
    requires forall m, c' :: 0 <= m < k && m % 3 == 0 && m != j ==> !env.matches(p[m].code, c').1
    requires forall m :: 0 <= m < k && m % 3 == 2 ==> forall n :: n in p[m].names ==> !IsReserved(n)
    ensures Select(env, p, c) == Failure(MultipleDefaults)
  {
    ScanReachesSecondDefault(env, p, 0, None, c, j, k);
  }

  // ---------------------------------------------------------------------------
  // Lowering `break`, `continue` and `return`.

  /** `Statement::Target`: the construct a `break` or `continue` names. */
  datatype Target = TargetUnspec | TargetSwitch | TargetWhile | TargetFor

  /** The status a `break` lowers to. */
  function BreakStatus(t: Target): Status
  {
    match t
    case TargetUnspec => BreakUnspec
    case TargetSwitch => BreakSwitch
    case TargetWhile => BreakWhile
    case TargetFor => BreakFor
  }

  /** The status a `continue` lowers to; there is none for a `continue` naming a
      `switch`, which ends the process. */
  function ContinueStatus(t: Target): Option<Status>
  {
    match t
    case TargetUnspec => Some(ContinueUnspec)
    case TargetSwitch => None
    case TargetWhile => Some(ContinueWhile)
    case TargetFor => Some(ContinueFor)
  }

  /** The constructs that catch jumps: a `switch` or a loop of either kind. */
  datatype Construct = SwitchConstruct | LoopConstruct(kind: LoopKind)

  /** Whether construct `k` catches status `s` as a break, as the executors above do. */
  predicate CatchesBreak(k: Construct, s: Status)
  {
    match k
    case SwitchConstruct => s == BreakUnspec || s == BreakSwitch
    case LoopConstruct(kind) => Exits(kind, s)
  }

  /** Whether construct `k` catches status `s` as a continue. */
  predicate CatchesContinue(k: Construct, s: Status)
  {
    k.LoopConstruct? && s != Next && Continues(k.kind, s)
  }

  /** Whether target `t` names construct `k`. */
  predicate Aims(t: Target, k: Construct)
  {
    match t
    case TargetUnspec => true
    case TargetSwitch => k == SwitchConstruct
    case TargetWhile => k == LoopConstruct(WhileKind)
    case TargetFor => k == LoopConstruct(ForKind)
  }

  /** A lowered `break` is caught by exactly the constructs its target names; every
      other construct hands it on. */
  lemma BreakReachesItsTarget(t: Target, k: Construct)
    ensures CatchesBreak(k, BreakStatus(t)) <==> Aims(t, k)
    ensures !CatchesBreak(k, BreakStatus(t)) ==>
      k == SwitchConstruct || Forwarded(k.kind, BreakStatus(t))
    ensures BreakStatus(t) != Next && BreakStatus(t) != Return
  {
  }

  /** A lowered `continue` is caught by exactly the loops its target names and passes
      through every `switch`. */
  lemma ContinueReachesItsTarget(t: Target, k: Construct)
    requires t != TargetSwitch
    ensures ContinueStatus(t).Some?
    ensures CatchesContinue(k, ContinueStatus(t).value) <==> Aims(t, k) && k.LoopConstruct?
    ensures k == SwitchConstruct ==>
      var s := ContinueStatus(t).value; s != Next && s != BreakUnspec && s != BreakSwitch
  {
  }

  /** The instructions `generate_code` emits for the statements modelled here. */
  datatype Instr =
    | ClearStack
    | Inline(unit: nat)
    | ConvertToTemporary
    | ReturnStatusSimple(status: Status)

  /** The status an instruction returns: the one it carries, or `next`. */
  function InstrStatus(i: Instr): Status
  {
    if i.ReturnStatusSimple? then i.status else Next
  }

  /** The status a straight run of instructions ends with. */
  function FirstStatus(code: seq<Instr>): Status
    decreases |code|
  {
    if code == [] then Next
    else if InstrStatus(code[0]) != Next then InstrStatus(code[0])
    else FirstStatus(code[1..])
  }

  /** The code of `return expr`: the stack is cleared, the expression is inlined, the
      result is converted to a temporary unless it is returned by reference, and the
      `return` status follows. */
  function ReturnCode(expr: seq<nat>, byRef: bool): seq<Instr>
  {
    [ClearStack] + seq(|expr|, i requires 0 <= i < |expr| => Inline(expr[i]))
      + (if byRef then [] else [ConvertToTemporary]) + [ReturnStatusSimple(Return)]
  }

  /** The code of `return` ends with the `return` status, and converts its result to a
      temporary exactly when it returns by value, as its next-to-last instruction. */
  lemma {:induction false} ReturnCodeReturns(expr: seq<nat>, byRef: bool)
    ensures FirstStatus(ReturnCode(expr, byRef)) == Return
    ensures ConvertToTemporary in ReturnCode(expr, byRef) <==> !byRef
    ensures !byRef ==> ReturnCode(expr, byRef)[|ReturnCode(expr, byRef)| - 2] == ConvertToTemporary
  {
    var code := ReturnCode(expr, byRef);
    var tail := (if byRef then [] else [ConvertToTemporary]) + [ReturnStatusSimple(Return)];
    assert code == [ClearStack] + seq(|expr|, i requires 0 <= i < |expr| => Inline(expr[i])) + tail;
    LeadingNextsSkipped(code, 0);
  }

  /** Instructions before the last all return `next`, so the run reaches it. */
  lemma {:induction false} LeadingNextsSkipped(code: seq<Instr>, i: nat)
    requires i < |code|
    requires forall k :: i <= k < |code| - 1 ==> InstrStatus(code[k]) == Next
    ensures FirstStatus(code[i..]) == InstrStatus(code[|code| - 1])
    decreases |code| - i
  {
    if i < |code| - 1 {
      assert code[i..][1..] == code[i + 1..];
      LeadingNextsSkipped(code, i + 1);
    }
  }

  /** The code buffer `generate_code` appends to. */
  class CodeBuffer {
    var code: seq<Instr>

    constructor ()
      ensures code == []
    {
      code := [];
    }

    /** `break`: one node returning the status of its target. */
    method GenerateBreak(t: Target)
      modifies this
      ensures code == old(code) + [ReturnStatusSimple(BreakStatus(t))]
    {
      code := code + [ReturnStatusSimple(BreakStatus(t))];
    }

    /** `continue`: one node returning the status of its target; a `continue` naming a
        `switch` ends the process, reported here as `false`, and appends nothing. */
    method GenerateContinue(t: Target) returns (ok: bool)
      modifies this
      ensures ok <==> t != TargetSwitch
      ensures ok ==> code == old(code) + [ReturnStatusSimple(ContinueStatus(t).value)]
      ensures !ok ==> code == old(code)
    {
      match ContinueStatus(t) {
        case None =>
          ok := false;
        case Some(s) =>
          code := code + [ReturnStatusSimple(s)];
          ok := true;
      }
    }

    /** `return`: appends `ReturnCode`. */
    method GenerateReturn(expr: seq<nat>, byRef: bool)
      modifies this
      ensures code == old(code) + ReturnCode(expr, byRef)
    {
      code := code + [ClearStack];
      var i := 0;
      while i < |expr|
        invariant 0 <= i <= |expr|
        invariant code == old(code) + [ClearStack] + seq(i, k requires 0 <= k < i => Inline(expr[k]))
      {
        code := code + [Inline(expr[i])];
        i := i + 1;
      }
      if !byRef {
        code := code + [ConvertToTemporary];
      }
      code := code + [ReturnStatusSimple(Return)];
    }
  }

  // ---------------------------------------------------------------------------
  // Converting the result to a temporary.

  /** A reference that is a bare temporary. */
  predicate IsTemporary(x: Ref)
  {
    x.root.RootTemporary? && x.mods == []
  }

  /** `read()` of a stack reference. */
  function ReadRef(x: Ref): Result<Value, R.RefError>
    reads R.RootCells(x.root)
  {
    R.ReadPath(R.DereferenceConst(x.root), x.mods)
  }

  /** What `do_execute_convert_to_temporary` leaves on the top of the stack: a temporary
      stays; anything else is replaced by a temporary holding the value it reads. */
  function ToTemporary(x: Ref): (r: Result<Ref, R.RefError>)
    reads R.RootCells(x.root)
    ensures r.Success? ==> IsTemporary(r.value) && ReadRef(r.value) == ReadRef(x)
    ensures r.Failure? <==> ReadRef(x).Failure?
    ensures IsTemporary(x) ==> r == Success(x)
  {
    if IsTemporary(x) then Success(x)
    else match ReadRef(x)
      case Failure(e) => Failure(e)
      case Success(v) => Success(Ref(R.RootTemporary(v), []))
  }

  /** Converting twice is converting once. */
  lemma ToTemporaryIdempotent(x: Ref)
    requires ToTemporary(x).Success?
    ensures ToTemporary(ToTemporary(x).value) == ToTemporary(x)
  {
  }

  /** The reference stack (`Reference_Stack`); its top is the last element. */
  class ReferenceStack {
    var refs: seq<Ref>

    constructor ()
      ensures refs == []
    {
      refs := [];
    }

    /** `do_execute_clear_stack`: a single null reference is left. */
    method ClearStack() returns (status: Status)
      modifies this
      ensures refs == [NullRef] && status == Next
    {
      refs := [NullRef];
      status := Next;
    }

    /** `do_execute_convert_to_temporary`: only the top changes, to `ToTemporary` of it;
        when reading it throws, nothing changes. */
    method ExecuteConvertToTemporary() returns (r: Result<Status, R.RefError>)
      requires refs != []
      modifies this
      ensures var top := old(refs[|refs| - 1]);
        match old(ToTemporary(refs[|refs| - 1]))
        case Success(t) => r == Success(Next) && refs == old(refs[..|refs| - 1]) + [t]
        case Failure(e) => r == Failure(e) && refs == old(refs)
    {
      var top := refs[|refs| - 1];
      if IsTemporary(top) {
        return Success(Next);
      }
      var v :- ReadRef(top);
      refs := refs[..|refs| - 1] + [Ref(R.RootTemporary(v), [])];
      r := Success(Next);
    }
  }
}
