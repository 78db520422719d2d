/** References: a root (null, a constant, a temporary or a variable cell) plus a stack of
    array-index and object-key modifiers applied from the root outwards.

    The root operations follow asteria/src/runtime/reference_root.cpp. The modifier chain
    (`zoom_in`, `zoom_out`, `read`, `open`, `unset`) follows the behaviour that
    test/reference.cpp checks: reads never fail on a missing element, writes create the
    containers and slots they need, and a negative index counts from the end, with slots
    prepended when it reaches before the start. */
module References {
  import opened Wrappers
  import opened Values

  /** A variable cell: its value and whether it may be modified. */
  class Variable {
    var value: Value
    var immutable: bool

    constructor (v: Value, immutable: bool)
      ensures value == v && this.immutable == immutable
    {
      value := v;
      this.immutable := immutable;
    }

    /** `reset(value, immutable)`. */
    method Reset(v: Value, immutable: bool)
      modifies this
      ensures value == v && this.immutable == immutable
    {
      value := v;
      this.immutable := immutable;
    }
  }

  /** `Reference_root`: `S_null`, `S_constant`, `S_temporary` or `S_variable`, whose
      handle is empty once it has been moved from. */
  datatype Root =
    | RootNull
    | RootConstant(source: Value)
    | RootTemporary(value: Value)
    | RootVariable(varOpt: Option<Variable>)

  /** `Reference_modifier`: `S_array_index` or `S_object_key`. */
  datatype Modifier = ArrayIndex(index: Int64) | ObjectKey(key: string)

  /** The runtime errors the reference operations throw. */
  datatype RefError =
    | NullNotModifiable
    | ConstantNotModifiable(constant: Value)
    | TemporaryNotModifiable(temporary: Value)
    | VariableMovedOut
    | VariableImmutable(current: Value)
    | TypeMismatch(parent: Value, modifier: Modifier)
    | NothingToUnset

  /** The variable a root refers to, if any: what its operations may read or change. */
  function RootCells(root: Root): set<Variable>
  {
    if root.RootVariable? && root.varOpt.Some? then {root.varOpt.value} else {}
  }

  // ---------------------------------------------------------------------------
  // The root (asteria/src/runtime/reference_root.cpp).

  /** `dereference_const()`. */
  function DereferenceConst(root: Root): (v: Value)
    reads RootCells(root)
    ensures root.RootNull? ==> v == Null
    ensures root.RootConstant? ==> v == root.source
    ensures root.RootTemporary? ==> v == root.value
    ensures root.RootVariable? ==>
      v == if root.varOpt.None? then Null else root.varOpt.value.value
  {
    match root
    case RootNull => Null
    case RootConstant(source) => source
    case RootTemporary(value) => value
    case RootVariable(varOpt) => if varOpt.None? then Null else varOpt.value.value
  }

  /** `dereference_mutable()` followed by `Variable::open_value()`: the cell to write to.
      Only a variable root that still holds a mutable variable has one. */
  function DereferenceMutable(root: Root): (r: Result<Variable, RefError>)
    reads RootCells(root)
    ensures r.Success? <==> root.RootVariable? && root.varOpt.Some? && !root.varOpt.value.immutable
    ensures r.Success? ==> r.value == root.varOpt.value
    ensures root.RootNull? ==> r == Failure(NullNotModifiable)
    ensures root.RootConstant? ==> r == Failure(ConstantNotModifiable(root.source))
    ensures root.RootTemporary? ==> r == Failure(TemporaryNotModifiable(root.value))
    ensures root == RootVariable(None) ==> r == Failure(VariableMovedOut)
  {
    match root
    case RootNull => Failure(NullNotModifiable)
    case RootConstant(source) => Failure(ConstantNotModifiable(source))
    case RootTemporary(value) => Failure(TemporaryNotModifiable(value))
    case RootVariable(varOpt) =>
      if varOpt.None? then Failure(VariableMovedOut)
      else if varOpt.value.immutable then Failure(VariableImmutable(varOpt.value.value))
      else Success(varOpt.value)
  }

  /** One thing `enumerate_variables` does: offer a variable to the callback, or hand a
      value to `Value::enumerate_variables`. */
  datatype EnumStep = Offered(variable: Variable) | DescendedInto(value: Value)

  /** `enumerate_variables(callback)`, with `accept` standing for `callback.accept`. A
      variable is offered when the root holds one, and its value is descended into exactly
      when the callback accepts it. */
  function EnumerateVariables(root: Root, accept: Variable -> bool): (steps: seq<EnumStep>)
    reads RootCells(root)
    ensures (root.RootNull? || root == RootVariable(None)) ==> steps == []
    ensures root.RootConstant? ==> steps == [DescendedInto(root.source)]
    ensures root.RootTemporary? ==> steps == [DescendedInto(root.value)]
    ensures root.RootVariable? && root.varOpt.Some? ==>
      && |steps| >= 1 && steps[0] == Offered(root.varOpt.value)
      && (|steps| == 2 <==> accept(root.varOpt.value))
      && (|steps| == 2 ==> steps[1] == DescendedInto(root.varOpt.value.value))
  {
    match root
    case RootNull => []
    case RootConstant(source) => [DescendedInto(source)]
    case RootTemporary(value) => [DescendedInto(value)]
    case RootVariable(varOpt) =>
      if varOpt.None? then []
      else
        [Offered(varOpt.value)]
        + (if accept(varOpt.value) then [DescendedInto(varOpt.value.value)] else [])
  }

  /** The part of the global context `dispose_variable` talks to: the collector's set of
      tracked variables. */
  class Collector {
    var tracked: set<Variable>

    constructor (tracked: set<Variable>)
      ensures this.tracked == tracked
    {
      this.tracked := tracked;
    }

    /** `untrack_variable(var)`: succeeds exactly when the variable was tracked. */
    method UntrackVariable(v: Variable) returns (ok: bool)
      modifies this
      ensures ok == (v in old(tracked))
      ensures tracked == old(tracked) - {v}
    {
      ok := v in tracked;
      tracked := tracked - {v};
    }
  }

  /** `dispose_variable(global)`, with `useCount` standing for `var_opt->use_count()`.
      Only a variable root acts: when at most two handles share the variable and it is
      detached from the collector, it is wiped to an immutable null. */
  method DisposeVariable(root: Root, global: Collector, useCount: nat)
    modifies global, RootCells(root)
    ensures !(root.RootVariable? && root.varOpt.Some?) ==>
      global.tracked == old(global.tracked) && unchanged(RootCells(root))
    ensures root.RootVariable? && root.varOpt.Some? ==>
      var v := root.varOpt.value;
      && (useCount > 2 ==> global.tracked == old(global.tracked) && unchanged(v))
      && (useCount <= 2 ==> global.tracked == old(global.tracked) - {v})
      && (useCount <= 2 && v in old(global.tracked) ==> v.value == Null && v.immutable)
      && (useCount <= 2 && v !in old(global.tracked) ==> unchanged(v))
  {
    match root {
      case RootNull =>
      case RootConstant(_) =>
      case RootTemporary(_) =>
      case RootVariable(varOpt) =>
        if varOpt.Some? && useCount <= 2 {
          var detached := global.UntrackVariable(varOpt.value);
          if detached {
            varOpt.value.Reset(Null, true);
          }
        }
    }
  }

  // ---------------------------------------------------------------------------
  // Modifiers over a value tree.

  /** `n` nulls. */
  function Nulls(n: nat): (s: seq<Value>)
    ensures |s| == n && forall i :: 0 <= i < n ==> s[i] == Null
  {
    if n == 0 then [] else Nulls(n - 1) + [Null]
  }

  /** The slot an index names in an array of `size` elements: a non-negative index counts
      from the front, a negative one from the end (`-1` is the last element). */
  function Slot(index: int, size: nat): int
  {
    if index >= 0 then index else index + size
  }

  /** Reading element `index`: nothing when the slot is outside the array. */
  function ElementAt(elems: seq<Value>, index: int): (r: Option<Value>)
    ensures r.Some? <==> 0 <= Slot(index, |elems|) < |elems|
    ensures r.Some? ==> r.value == elems[Slot(index, |elems|)]
  {
    var k := Slot(index, |elems|);
    if 0 <= k < |elems| then Some(elems[k]) else None
  }

  /** Makes room for writing element `index`: nulls are appended up to a slot past the
      end, or prepended down to a slot before the start. Returns the array and the
      position of the slot in it. */
  function Extend(elems: seq<Value>, index: int): (r: (seq<Value>, nat))
    ensures r.1 < |r.0|
    ensures 0 <= Slot(index, |elems|) < |elems| ==> r == (elems, Slot(index, |elems|))
    ensures Slot(index, |r.0|) == r.1
    ensures index >= 0 ==> r.0[..|elems|] == elems
    ensures index < 0 ==> r.0[|r.0| - |elems|..] == elems
    ensures forall i ::
      (0 <= i < |r.0| && (index >= 0 ==> i >= |elems|) && (index < 0 ==> i < |r.0| - |elems|))
      ==> r.0[i] == Null
  {
    var k := Slot(index, |elems|);
    if 0 <= k < |elems| then (elems, k)
    else if k >= |elems| then (elems + Nulls(k - |elems| + 1), k)
    else (Nulls(-k) + elems, 0)
  }

  /** One read step (`apply_const`): a missing element gives nothing; a null parent has
      no elements; any other parent of the wrong kind is an error. */
  function ReadStep(parent: Value, m: Modifier): Result<Option<Value>, RefError>
  {
    match (parent, m)
    case (Null, _) => Success(None)
    case (Array(elems), ArrayIndex(i)) => Success(ElementAt(elems, i as int))
    case (Object(members), ObjectKey(k)) =>
      Success(if k in members then Some(members[k]) else None)
    case _ => Failure(TypeMismatch(parent, m))
  }

  /** `read()` below the root value `v`: the modifiers are applied in order, and the
      first that finds nothing makes the result null. */
  function ReadPath(v: Value, mods: seq<Modifier>): Result<Value, RefError>
    decreases |mods|
  {
    if |mods| == 0 then Success(v)
    else match ReadStep(v, mods[0])
      case Failure(e) => Failure(e)
      case Success(None) => Success(Null)
      case Success(Some(child)) => ReadPath(child, mods[1..])
  }

  /** `open() = x` below the root value `v`: the modifiers are applied in order, turning a
      null into an empty array or object and creating any missing slot as null, and `x`
      is stored at the end of the path. Returns the new root value. */
  function WritePath(v: Value, mods: seq<Modifier>, x: Value): Result<Value, RefError>
    decreases |mods|, 1
  {
    if |mods| == 0 then Success(x)
    else match (v, mods[0])
      case (Null, ArrayIndex(i)) => WriteElement([], i as int, mods[1..], x)
      case (Array(elems), ArrayIndex(i)) => WriteElement(elems, i as int, mods[1..], x)
      case (Null, ObjectKey(k)) => WriteMember(map[], k, mods[1..], x)
      case (Object(members), ObjectKey(k)) => WriteMember(members, k, mods[1..], x)
      case _ => Failure(TypeMismatch(v, mods[0]))
  }

  function WriteElement(elems: seq<Value>, index: int, rest: seq<Modifier>, x: Value): Result<Value, RefError>
    decreases |rest| + 1, 0
  {
    var (grown, pos) := Extend(elems, index);
    match WritePath(grown[pos], rest, x)
    case Failure(e) => Failure(e)
    case Success(child) => Success(Array(grown[pos := child]))
  }

  function WriteMember(members: map<string, Value>, key: string, rest: seq<Modifier>, x: Value): Result<Value, RefError>
    decreases |rest| + 1, 0
  {
    var child := if key in members then members[key] else Null;
    match WritePath(child, rest, x)
    case Failure(e) => Failure(e)
    case Success(c) => Success(Object(members[key := c]))
  }

  /** The last step of `unset()` (`apply_and_erase`): removes the element and returns it,
      or returns null when there is nothing there. */
  function EraseStep(parent: Value, m: Modifier): Result<(Value, Value), RefError>
  {
    match (parent, m)
    case (Null, _) => Success((Null, Null))
    case (Array(elems), ArrayIndex(i)) =>
      var k := Slot(i as int, |elems|);
      if 0 <= k < |elems| then Success((Array(elems[..k] + elems[k + 1..]), elems[k]))
      else Success((parent, Null))
    case (Object(members), ObjectKey(k)) =>
      if k in members then Success((Object(members - {k}), members[k]))
      else Success((parent, Null))
    case _ => Failure(TypeMismatch(parent, m))
  }

  /** `unset()` below the root value `v`: every modifier but the last is followed without
      creating anything, and the last erases. Returns the new root value and the removed
      value. */
  function UnsetPath(v: Value, mods: seq<Modifier>): Result<(Value, Value), RefError>
    decreases |mods|
  {
    if |mods| == 0 then Failure(NothingToUnset)
    else if |mods| == 1 then EraseStep(v, mods[0])
    else match ReadStep(v, mods[0])
      case Failure(e) => Failure(e)
      case Success(None) => Success((v, Null))
      case Success(Some(child)) =>
        match UnsetPath(child, mods[1..])
        case Failure(e) => Failure(e)
        case Success((c, removed)) => Success((Replace(v, mods[0], c), removed))
  }

  /** Puts `child` back at the place a successful read step took it from. */
  function Replace(parent: Value, m: Modifier, child: Value): Value
  {
    match (parent, m)
    case (Array(elems), ArrayIndex(i)) =>
      var k := Slot(i as int, |elems|);
      if 0 <= k < |elems| then Array(elems[k := child]) else parent
    case (Object(members), ObjectKey(k)) => Object(members[k := child])
    case _ => parent
  }

  // ---------------------------------------------------------------------------
  // What the modifier operations promise.

  /** What was written is what is read back along the same path. */
  lemma {:induction false} WriteThenRead(v: Value, mods: seq<Modifier>, x: Value)
    requires WritePath(v, mods, x).Success?
    ensures ReadPath(WritePath(v, mods, x).value, mods) == Success(x)
    decreases |mods|, 1
  {
    if |mods| > 0 {
      var rest := mods[1..];
      match (v, mods[0]) {
        case (Null, ArrayIndex(i)) =>
          WriteElementThenRead(v, [], mods, x);
        case (Array(elems), ArrayIndex(i)) =>
          WriteElementThenRead(v, elems, mods, x);
        case (Null, ObjectKey(k)) =>
          WriteThenRead(Null, rest, x);
        case (Object(members), ObjectKey(k)) =>
          var child := if k in members then members[k] else Null;
          WriteThenRead(child, rest, x);
      }
    }
  }

  /** `WriteThenRead` for a first step into an array element. */
  lemma {:induction false} WriteElementThenRead(v: Value, elems: seq<Value>, mods: seq<Modifier>, x: Value)
    requires |mods| > 0 && mods[0].ArrayIndex?
    requires (v == Null && elems == []) || v == Array(elems)
    requires WritePath(v, mods, x).Success?
    ensures ReadPath(WritePath(v, mods, x).value, mods) == Success(x)
    decreases |mods|, 0
  {
    var i := mods[0].index as int;
    var rest := mods[1..];
    assert WritePath(v, mods, x) == WriteElement(elems, i, rest, x);
    var (grown, pos) := Extend(elems, i);
    WriteThenRead(grown[pos], rest, x);
    var child := WritePath(grown[pos], rest, x).value;
    var stored := grown[pos := child];
    assert WritePath(v, mods, x) == Success(Array(stored));
    assert |stored| == |grown| && Slot(i, |stored|) == pos && stored[pos] == child;
    assert ElementAt(stored, i) == Some(child);
    assert ReadStep(Array(stored), mods[0]) == Success(Some(child));
  }

  /** A read from a null finds nothing, however long the path. */
  lemma ReadNull(mods: seq<Modifier>)
    ensures ReadPath(Null, mods) == Success(Null)
  {
  }

  /** Writing below a null never fails: every step creates what it needs. */
  lemma {:induction false} WriteIntoNullSucceeds(mods: seq<Modifier>, x: Value)
    ensures WritePath(Null, mods, x).Success?
    decreases |mods|
  {
    if |mods| > 0 {
      var rest := mods[1..];
      match mods[0] {
        case ArrayIndex(i) =>
          var (grown, pos) := Extend([], i as int);
          WriteIntoNullSucceeds(rest, x);
        case ObjectKey(k) =>
          WriteIntoNullSucceeds(rest, x);
      }
    }
  }

  /** A write fails exactly when a read along the same path fails: both meet a value of
      the wrong kind before the path ends. */
  lemma {:induction false} WriteFailsIffReadFails(v: Value, mods: seq<Modifier>, x: Value)
    ensures WritePath(v, mods, x).Failure? <==> ReadPath(v, mods).Failure?
    decreases |mods|, 1
  {
    if |mods| > 0 {
      var rest := mods[1..];
      match (v, mods[0]) {
        case (Null, ArrayIndex(i)) =>
          var (grown, pos) := Extend([], i as int);
          WriteIntoNullSucceeds(rest, x);
        case (Null, ObjectKey(k)) =>
          WriteIntoNullSucceeds(rest, x);
        case (Array(elems), ArrayIndex(i)) =>
          WriteElementFailsIffReadFails(elems, mods, x);
        case (Object(members), ObjectKey(k)) =>
          if k in members {
            WriteFailsIffReadFails(members[k], rest, x);
          } else {
            WriteIntoNullSucceeds(rest, x);
          }
        case _ =>
      }
    }
  }

  /** `WriteFailsIffReadFails` for a first step into an array element. */
  lemma {:induction false} WriteElementFailsIffReadFails(elems: seq<Value>, mods: seq<Modifier>, x: Value)
    requires |mods| > 0 && mods[0].ArrayIndex?
    ensures WritePath(Array(elems), mods, x).Failure? <==> ReadPath(Array(elems), mods).Failure?
    decreases |mods|, 0
  {
    var i := mods[0].index as int;
    var rest := mods[1..];
    var (grown, pos) := Extend(elems, i);
    assert WritePath(Array(elems), mods, x) == WriteElement(elems, i, rest, x);
    assert ReadStep(Array(elems), mods[0]) == Success(ElementAt(elems, i));
    if 0 <= Slot(i, |elems|) < |elems| {
      assert grown[pos] == elems[Slot(i, |elems|)];
      WriteFailsIffReadFails(elems[Slot(i, |elems|)], rest, x);
    } else {
      ExtendedSlotIsNull(elems, i);
      WriteIntoNullSucceeds(rest, x);
    }
  }

  /** The slot `Extend` makes for an index outside the array holds a null. */
  lemma ExtendedSlotIsNull(elems: seq<Value>, index: int)
    requires !(0 <= Slot(index, |elems|) < |elems|)
    ensures Extend(elems, index).0[Extend(elems, index).1] == Null
  {
  }

  /** `unset()` hands back what `read()` would have returned along the same path, and
      fails exactly when that read fails. */
  lemma {:induction false} UnsetReturnsRead(v: Value, mods: seq<Modifier>)
    requires |mods| > 0
    ensures UnsetPath(v, mods).Failure? <==> ReadPath(v, mods).Failure?
    ensures UnsetPath(v, mods).Success? ==> ReadPath(v, mods) == Success(UnsetPath(v, mods).value.1)
    decreases |mods|
  {
    if |mods| == 1 {
      assert ReadPath(v, mods) == match ReadStep(v, mods[0])
        case Failure(e) => Failure(e)
        case Success(None) => Success(Null)
        case Success(Some(child)) => ReadPath(child, []);
    } else {
      match ReadStep(v, mods[0]) {
        case Failure(_) =>
        case Success(None) =>
        case Success(Some(child)) =>
          UnsetReturnsRead(child, mods[1..]);
      }
    }
  }

  /** After a member is unset, reading it gives null, and unsetting it again gives null. */
  lemma {:induction false} UnsetMemberThenRead(v: Value, mods: seq<Modifier>)
    requires |mods| > 0 && mods[|mods| - 1].ObjectKey? && UnsetPath(v, mods).Success?
    ensures ReadPath(UnsetPath(v, mods).value.0, mods) == Success(Null)
    ensures UnsetPath(UnsetPath(v, mods).value.0, mods) == Success((UnsetPath(v, mods).value.0, Null))
    decreases |mods|
  {
    if |mods| > 1 {
      match ReadStep(v, mods[0]) {
        case Failure(_) =>
        case Success(None) =>
        case Success(Some(child)) =>
          var rest := mods[1..];
          assert rest[|rest| - 1] == mods[|mods| - 1];
          UnsetMemberThenRead(child, rest);
          var c := UnsetPath(child, rest).value.0;
          ReplaceThenReadStep(v, mods[0], child, c);
          assert UnsetPath(v, mods).value.0 == Replace(v, mods[0], c);
      }
    }
  }

  /** Putting a child back where a read step found it lets the same step find the new one. */
  lemma ReplaceThenReadStep(parent: Value, m: Modifier, child: Value, c: Value)
    requires ReadStep(parent, m) == Success(Some(child))
    ensures ReadStep(Replace(parent, m, c), m) == Success(Some(c))
    ensures Replace(Replace(parent, m, c), m, c) == Replace(parent, m, c)
  {
    match (parent, m) {
      case (Array(elems), ArrayIndex(i)) =>
        var k := Slot(i as int, |elems|);
        assert 0 <= k < |elems|;
        assert ElementAt(elems[k := c], i as int) == Some(c);
      case (Object(members), ObjectKey(k)) =>
      case _ =>
    }
  }

  // ---------------------------------------------------------------------------
  // The reference object.

  /** `Reference`: a root and the modifiers zoomed into so far. */
  class Reference {
    var root: Root
    var mods: seq<Modifier>

    /** `Reference(root)`: no modifiers yet. */
    constructor (r: Root)
      ensures root == r && mods == []
    {
      root := r;
      mods := [];
    }

    /** `Reference(other)`: a copy, which later changes to either side do not affect. */
    constructor Copy(other: Reference)
      ensures root == other.root && mods == other.mods
    {
      root := other.root;
      mods := other.mods;
    }

    /** `ref = root`: a new root, with no modifiers. */
    method SetRoot(r: Root)
      modifies this
      ensures root == r && mods == []
    {
      root := r;
      mods := [];
    }

    /** `zoom_in(mod)`: pushes a modifier. */
    method ZoomIn(m: Modifier)
      modifies this
      ensures root == old(root) && mods == old(mods) + [m]
    {
      mods := mods + [m];
    }

    /** `zoom_out()`: pops the last modifier; with none left, the reference becomes the
        null reference. */
    method ZoomOut()
      modifies this
      ensures old(mods) != [] ==> root == old(root) && mods == old(mods)[..|old(mods)| - 1]
      ensures old(mods) == [] ==> root == RootNull && mods == []
    {
      if |mods| == 0 {
        root := RootNull;
      } else {
        mods := mods[..|mods| - 1];
      }
    }

    /** `read()`: the value at the end of the path. */
    method Read() returns (r: Result<Value, RefError>)
      ensures r == ReadPath(DereferenceConst(root), mods)
    {
      r := ReadPath(DereferenceConst(root), mods);
    }

    /** `open() = x`: stores `x` at the end of the path inside the root variable, creating
        what is missing. Fails, changing nothing, when the root is not a mutable variable
        or the path meets a value of the wrong kind. */
    method Open(x: Value) returns (r: Result<(), RefError>)
      modifies RootCells(root)
      ensures root == old(root) && mods == old(mods)
      ensures match DereferenceMutable(root)
        case Failure(e) => r == Failure(e) && unchanged(RootCells(root))
        case Success(cell) =>
          match WritePath(old(cell.value), mods, x)
          case Failure(e) => r == Failure(e) && unchanged(cell)
          case Success(nv) => r == Success(()) && cell.value == nv && cell.immutable == old(cell.immutable)
    {
      var cell := DereferenceMutable(root);
      if cell.Failure? {
        return Failure(cell.error);
      }
      var nv := WritePath(cell.value.value, mods, x);
      if nv.Failure? {
        return Failure(nv.error);
      }
      cell.value.value := nv.value;
      r := Success(());
    }

    /** `unset()`: removes the value at the end of the path inside the root variable and
        returns it; null when nothing is there. */
    method Unset() returns (r: Result<Value, RefError>)
      modifies RootCells(root)
      ensures root == old(root) && mods == old(mods)
      ensures match DereferenceMutable(root)
        case Failure(e) => r == Failure(e) && unchanged(RootCells(root))
        case Success(cell) =>
          match UnsetPath(old(cell.value), mods)
          case Failure(e) => r == Failure(e) && unchanged(cell)
          case Success((nv, removed)) =>
            (r == Success(removed) && cell.value == nv && cell.immutable == old(cell.immutable))
    {
      var cell := DereferenceMutable(root);
      if cell.Failure? {
        return Failure(cell.error);
      }
      var res := UnsetPath(cell.value.value, mods);
      if res.Failure? {
        return Failure(res.error);
      }
      cell.value.value := res.value.0;
      r := Success(res.value.1);
    }
  }

  // ---------------------------------------------------------------------------
  // The paths exercised by test/reference.cpp, evaluated on the value tree.

  /** Index -3 of null reads null; writing through it prepends two nulls; index 0 then
      reads the value written. */
  lemma NegativeIndexExample()
    ensures ReadPath(Null, [ArrayIndex(-3)]) == Success(Null)
    ensures WritePath(Null, [ArrayIndex(-3)], Integer(36)) == Success(Array([Integer(36), Null, Null]))
    ensures ReadPath(Array([Integer(36), Null, Null]), [ArrayIndex(0)]) == Success(Integer(36))
  {
    var three := [Null, Null, Null];
    assert Nulls(3) == three;
    assert Slot(-3, 0) == -3;
    assert Nulls(3) + [] == three;
    assert Extend([], -3) == (three, 0);
    assert WriteElement([], -3, [], Integer(36)) == Success(Array(three[0 := Integer(36)]));
    var p := [ArrayIndex(-3)];
    assert p[1..] == [] && p[0].index as int == -3;
    assert WritePath(Null, p, Integer(36)) == WriteElement([], -3, [], Integer(36));
    assert three[0 := Integer(36)] == [Integer(36), Null, Null];
  }

  /** A key below index 2 is created by a write and found again through index -1; a key
      looked up in a number is an error. */
  lemma NestedKeyExample()
    ensures ReadPath(Array([Integer(36), Null, Null]), [ArrayIndex(2), ObjectKey("my_key")])
            == Success(Null)
    ensures WritePath(Array([Integer(36), Null, Null]), [ArrayIndex(2), ObjectKey("my_key")], Double(10.5))
            == Success(Array([Integer(36), Null, Object(map["my_key" := Double(10.5)])]))
    ensures ReadPath(Array([Integer(36), Null, Object(map["my_key" := Double(10.5)])]),
                     [ArrayIndex(2), ObjectKey("my_key")]) == Success(Double(10.5))
    ensures ReadPath(Array([Integer(36), Null, Object(map["my_key" := Double(10.5)])]),
                     [ArrayIndex(-1), ObjectKey("my_key")]) == Success(Double(10.5))
    ensures ReadPath(Array([Integer(36), Null, Object(map["my_key" := Double(10.5)])]),
                     [ArrayIndex(-1), ObjectKey("my_key"), ObjectKey("invalid_access")])
            == Failure(TypeMismatch(Double(10.5), ObjectKey("invalid_access")))
  {
    var a := [Integer(36), Null, Null];
    var o := Object(map["my_key" := Double(10.5)]);
    assert Extend(a, 2) == (a, 2);
    assert WriteMember(map[], "my_key", [], Double(10.5)) == Success(o);
    assert a[2 := o] == [Integer(36), Null, o];
    var b := [Integer(36), Null, o];
    assert ElementAt(b, 2) == Some(o) && ElementAt(b, -1) == Some(o);
    var p := [ArrayIndex(-1), ObjectKey("my_key"), ObjectKey("invalid_access")];
    assert p[1..] == [ObjectKey("my_key"), ObjectKey("invalid_access")];
    assert p[1..][1..] == [ObjectKey("invalid_access")];
  }

  /** Unsetting the key returns its value, leaves an empty object behind, and a second
      unset finds nothing. */
  lemma UnsetExample()
    ensures UnsetPath(Array([Integer(36), Null, Object(map["my_key" := Double(10.5)])]),
                      [ArrayIndex(-1), ObjectKey("my_key")])
            == Success((Array([Integer(36), Null, Object(map[])]), Double(10.5)))
    ensures ReadPath(Array([Integer(36), Null, Object(map[])]), [ArrayIndex(-1), ObjectKey("my_key")])
            == Success(Null)
    ensures UnsetPath(Array([Integer(36), Null, Object(map[])]), [ArrayIndex(-1), ObjectKey("my_key")])
            == Success((Array([Integer(36), Null, Object(map[])]), Null))
  {
    var m := map["my_key" := Double(10.5)];
    assert m - {"my_key"} == map[];
    var b := [Integer(36), Null, Object(m)];
    assert b[2 := Object(map[])] == [Integer(36), Null, Object(map[])];
    var c := [Integer(36), Null, Object(map[])];
    assert c[2 := Object(map[])] == c;
  }

  /** The first part of test/reference.cpp: a constant and a temporary read back their
      values and refuse `open()`; a copy keeps the root it was copied from. */
  method SessionConstantAndTemporary()
    returns (seen: seq<Result<Value, RefError>>, opens: seq<Result<(), RefError>>)
    ensures seen == [Success(String("meow")), Success(String("meow")),
                     Success(Integer(42)), Success(String("meow"))]
    ensures opens == [Failure(ConstantNotModifiable(String("meow"))),
                      Failure(TemporaryNotModifiable(Integer(42)))]
  {
    var ref := new Reference(RootConstant(String("meow")));
    var r1 := ref.Read();
    var w1 := ref.Open(Boolean(true));
    var ref2 := new Reference.Copy(ref);
    var r2 := ref2.Read();
    ref.SetRoot(RootTemporary(Integer(42)));
    var r3 := ref.Read();
    var w2 := ref.Open(Boolean(true));
    var r4 := ref2.Read();
    seen := [r1, r2, r3, r4];
    opens := [w1, w2];
  }

  /** The second part: writing through index -3 of a null variable makes a three-element
      array whose first element is the value written, and index 0 reads it back. */
  method SessionNegativeIndex(cell: Variable)
    returns (seen: seq<Result<Value, RefError>>, wrote: Result<(), RefError>)
    requires cell.value == Null && !cell.immutable
    modifies cell
    ensures seen == [Success(Null), Success(Integer(36))]
    ensures wrote == Success(())
    ensures cell.value == Array([Integer(36), Null, Null]) && !cell.immutable
  {
    NegativeIndexExample();
    var ref := new Reference(RootVariable(Some(cell)));
    ref.ZoomIn(ArrayIndex(-3));
    var r1 := ref.Read();
    wrote := ref.Open(Integer(36));
    ref.ZoomOut();
    ref.ZoomIn(ArrayIndex(0));
    var r2 := ref.Read();
    seen := [r1, r2];
  }

  /** The third part: a key below index 2 is created on write and read back. */
  method SessionNestedKey(cell: Variable)
    returns (seen: seq<Result<Value, RefError>>, wrote: Result<(), RefError>)
    requires cell.value == Array([Integer(36), Null, Null]) && !cell.immutable
    modifies cell
    ensures seen == [Success(Null), Success(Double(10.5))]
    ensures wrote == Success(())
    ensures cell.value == Array([Integer(36), Null, Object(map["my_key" := Double(10.5)])])
    ensures !cell.immutable
  {
    NestedKeyExample();
    var ref := new Reference(RootVariable(Some(cell)));
    ref.ZoomIn(ArrayIndex(2));
    ref.ZoomIn(ObjectKey("my_key"));
    var r1 := ref.Read();
    wrote := ref.Open(Double(10.5));
    var r2 := ref.Read();
    seen := [r1, r2];
  }

  /** The fourth part: the same key is found through index -1, and looking a key up in the
      number stored there is an error. */
  method SessionReread(cell: Variable) returns (seen: seq<Result<Value, RefError>>)
    requires cell.value == Array([Integer(36), Null, Object(map["my_key" := Double(10.5)])])
    ensures seen == [Success(Double(10.5)),
                     Failure(TypeMismatch(Double(10.5), ObjectKey("invalid_access")))]
  {
    NestedKeyExample();
    var ref := new Reference(RootVariable(Some(cell)));
    ref.ZoomIn(ArrayIndex(-1));
    ref.ZoomIn(ObjectKey("my_key"));
    var r1 := ref.Read();
    ref.ZoomIn(ObjectKey("invalid_access"));
    var r2 := ref.Read();
    seen := [r1, r2];
  }

  /** The last part: `unset()` returns the value it removes, the key then reads as null,
      and a second `unset()` returns null. */
  method SessionUnset(cell: Variable)
    returns (first: Result<Value, RefError>, after: Result<Value, RefError>,
             second: Result<Value, RefError>)
    requires cell.value == Array([Integer(36), Null, Object(map["my_key" := Double(10.5)])])
    requires !cell.immutable
    modifies cell
    ensures first == Success(Double(10.5)) && after == Success(Null) && second == Success(Null)
    ensures cell.value == Array([Integer(36), Null, Object(map[])])
  {
    UnsetExample();
    var ref := new Reference(RootVariable(Some(cell)));
    ref.ZoomIn(ArrayIndex(-1));
    ref.ZoomIn(ObjectKey("my_key"));
    first := ref.Unset();
    after := ref.Read();
    second := ref.Unset();
  }
}
