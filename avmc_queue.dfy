/** `AVMC_Queue` (asteria/src/llds/avmc_queue.hpp, avmc_queue.cpp): an append-only buffer of
    variable-length node records, measured in units of `Header`. Each node is a header, an
    optional block of symbols, and a payload padded to whole headers. The raw block is
    modelled as the sequence of node records it holds; `used` and `rsrv` count headers. */
module AvmcQueue {
  import opened Wrappers
  import opened AirStatus

  // ---------------------------------------------------------------------------
  // Layout constants.

  /** `sizeof(Header)`: a byte, a byte of bit-fields, 16 and 32 bits of user data and a
      pointer, aligned to `max_align_t`, on a 64-bit target. */
  const HeaderSize: nat := 16

  /** `sizeof(Symbols)`: one source location (a string handle and a line number). */
  const SymbolsSize: nat := 24

  /** Headers occupied by the symbols of a node that has them. */
  const SymbolHeaders: nat := (SymbolsSize - 1) / HeaderSize + 1

  /** `nbytes_max` in `do_reserve_one`: `UINT8_MAX * sizeof(Header) - 1`. */
  const NbytesMax: nat := 255 * HeaderSize - 1

  /** `nhdrs_max` in `do_reallocate`: `UINT32_MAX / sizeof(Header)`. */
  const NhdrsMax: nat := 0xFFFF_FFFF / HeaderSize

  // ---------------------------------------------------------------------------
  // Node records.

  /** `Uparam`: 48 bits of user data behind a 16-bit lead that users must not touch. Only
      `x16` and `x32` are stored in a header. */
  datatype Uparam = Uparam(lead: bv16, x16: bv16, x32: bv32)

  /** `Uparam()` and `Uparam uparam = { }`: all zero. */
  const ZeroUparam := Uparam(0, 0, 0)

  type ExecutorId = nat
  type EnumeratorId = nat

  /** The properties of a payload type `SparamT` that the queue consults. */
  datatype SparamType = SparamType(
    size: nat, trivial: bool, triviallyMovable: bool, triviallyDestructible: bool)

  /** A payload object of some type and its representation. */
  datatype Payload = Payload(ty: SparamType, bytes: seq<bv8>)

  /** `Vtable`: the move constructor and destructor of a payload type (identified by the
      type they belong to; null when trivial), the executor and the optional enumerator. */
  datatype Vtable = Vtable(
    mvctor: Option<SparamType>, dtor: Option<SparamType>,
    executor: ExecutorId, vnum: Option<EnumeratorId>)

  /** The union in a header: a vtable when `has_vtbl`, a bare executor otherwise. */
  datatype Handler = Bare(exec: ExecutorId) | Table(vtable: Vtable)

  datatype SourceLocation = SourceLocation(file: string, line: int)

  /** `Symbols`: the source location used for backtrace frames. */
  datatype Symbols = Symbols(sloc: SourceLocation)

  /** One node: its header fields, its symbols if `has_syms`, and its payload. */
  datatype Node = Node(
    nphdrs: nat, handler: Handler, syms: Option<Symbols>,
    x16: bv16, x32: bv32, sparam: seq<bv8>)

  /** `Header::mvctor_opt`: only a node with a vtable can have a move constructor. */
  function MvctorOpt(n: Node): (r: Option<SparamType>)
    ensures r.Some? ==> n.handler.Table?
  {
    if n.handler.Table? then n.handler.vtable.mvctor else None
  }

  /** `Header::dtor_opt`: only a node with a vtable can have a destructor. */
  function DtorOpt(n: Node): (r: Option<SparamType>)
    ensures r.Some? ==> n.handler.Table?
  {
    if n.handler.Table? then n.handler.vtable.dtor else None
  }

  /** `Header::executor`. */
  function ExecutorOf(n: Node): ExecutorId
  {
    if n.handler.Table? then n.handler.vtable.executor else n.handler.exec
  }

  /** `Header::vnum_opt`: only a node with a vtable can have an enumerator. */
  function VnumOpt(n: Node): (r: Option<EnumeratorId>)
    ensures r.Some? ==> n.handler.Table?
  {
    if n.handler.Table? then n.handler.vtable.vnum else None
  }

  /** `Header::uparam`: the stored 48 bits behind the lead `0xDEAD`. */
  function UparamOf(n: Node): (u: Uparam)
    ensures u.lead == 0xDEAD && u.x16 == n.x16 && u.x32 == n.x32
  {
    Uparam(0xDEAD, n.x16, n.x32)
  }

  /** `Header::symbol_size_in_headers`: headers are spent on symbols exactly when the
      node has them. */
  function SymbolSizeInHeaders(hasSyms: bool): (k: nat)
    ensures hasSyms <==> k > 0
    ensures k <= SymbolHeaders
  {
    if hasSyms then SymbolHeaders else 0
  }

  /** `Header::total_size_in_headers`. */
  function TotalSize(n: Node): (k: nat)
    ensures k >= 1
  {
    1 + SymbolSizeInHeaders(n.syms.Some?) + n.nphdrs
  }

  /** The `nphdrs` a reservation of `nbytes` writes: the rounded-up header count, cast
      to `uint8_t`. */
  function Nphdrs(nbytes: nat): nat
  {
    ((nbytes + HeaderSize - 1) / HeaderSize) % 256
  }

  /** Below the size limit, the cast to `uint8_t` loses nothing: `nphdrs` headers are the
      fewest that hold `nbytes` bytes. */
  lemma NphdrsIsCeiling(nbytes: nat)
    requires nbytes <= NbytesMax
    ensures Nphdrs(nbytes) <= 255
    ensures Nphdrs(nbytes) * HeaderSize >= nbytes
    ensures Nphdrs(nbytes) == 0 || (Nphdrs(nbytes) - 1) * HeaderSize < nbytes
  {
    var q := (nbytes + HeaderSize - 1) / HeaderSize;
    assert q <= 255;
    assert Nphdrs(nbytes) == q;
  }

  /** Headers taken by a node with `nbytes` of payload, with or without symbols. */
  function NodeSize(hasSyms: bool, nbytes: nat): nat
  {
    1 + SymbolSizeInHeaders(hasSyms) + Nphdrs(nbytes)
  }

  /** Headers taken by all of `ns`, laid out one after another. */
  function Footprint(ns: seq<Node>): nat
  {
    if |ns| == 0 then 0 else Footprint(ns[..|ns| - 1]) + TotalSize(ns[|ns| - 1])
  }

  lemma FootprintSnoc(ns: seq<Node>, k: int)
    requires 0 <= k < |ns|
    ensures Footprint(ns[..k + 1]) == Footprint(ns[..k]) + TotalSize(ns[k])
  {
    assert ns[..k + 1][..k] == ns[..k];
  }

  lemma FootprintAppend(ns: seq<Node>, n: Node)
    ensures Footprint(ns + [n]) == Footprint(ns) + TotalSize(n)
  {
    assert (ns + [n])[..|ns|] == ns;
  }

  /** Walking from the first header by node sizes stops exactly at the end of the used
      area: every proper prefix of the nodes ends before it. */
  lemma {:induction false} FootprintPrefix(ns: seq<Node>, k: int)
    requires 0 <= k < |ns|
    ensures Footprint(ns[..k]) + TotalSize(ns[k]) <= Footprint(ns)
    decreases |ns|
  {
    if k < |ns| - 1 {
      var init := ns[..|ns| - 1];
      assert init[..k] == ns[..k] && init[k] == ns[k];
      FootprintPrefix(init, k);
    } else {
      assert ns[..k] == ns[..|ns| - 1];
    }
  }

  lemma FootprintWhole(ns: seq<Node>)
    ensures Footprint(ns[..|ns|]) == Footprint(ns)
  {
    assert ns[..|ns|] == ns;
  }

  /** No headers are used exactly when there are no nodes. */
  lemma FootprintZero(ns: seq<Node>)
    ensures Footprint(ns) == 0 <==> |ns| == 0
  {
    if |ns| > 0 {
      FootprintPrefix(ns, |ns| - 1);
    }
  }

  // ---------------------------------------------------------------------------
  // Capacity.

  /** `|` on non-negative integers, bit by bit. */
  function BitOr(a: nat, b: nat): nat
    decreases a + b
  {
    if a == 0 then b
    else if b == 0 then a
    else 2 * BitOr(a / 2, b / 2) + (if a % 2 == 1 || b % 2 == 1 then 1 else 0)
  }

  /** Or-ing in more bits never makes a number smaller, and never exceeds the sum. */
  lemma {:induction false} BitOrBounds(a: nat, b: nat)
    ensures a <= BitOr(a, b) && b <= BitOr(a, b) && BitOr(a, b) <= a + b
    decreases a + b
  {
    if a != 0 && b != 0 {
      BitOrBounds(a / 2, b / 2);
    }
  }

  datatype QueueError =
    | InvalidNodeSize(nbytes: nat)   // `ASTERIA_THROW("invalid AVMC node size ...")`
    | BadArrayNewLength              // `std::bad_array_new_length`
    | Thrown(what: RuntimeError)     // an exception from a payload constructor

  /** `Runtime_Error` with its backtrace frames, innermost first. */
  datatype RuntimeError = RuntimeError(what: string, frames: seq<Frame>)
  datatype Frame = Frame(sloc: SourceLocation, func: string)

  /** The capacity `do_reserve_one` leaves for a node with `nbytes` of payload: the
      current one when it has room, otherwise the one `do_reallocate` grows to with
      `nadd | used * 4` more headers. */
  function Reserve(used: nat, rsrv: nat, hasSyms: bool, nbytes: nat): Result<nat, QueueError>
  {
    if nbytes > NbytesMax then Failure(InvalidNodeSize(nbytes))
    else
      var nadd := NodeSize(hasSyms, nbytes);
      if rsrv - used >= nadd then Success(rsrv)
      else
        var grow := BitOr(nadd, used * 4);
        if NhdrsMax - used < grow then Failure(BadArrayNewLength)
        else Success(used + grow)
  }

  /** A successful reservation leaves room for the node, never shrinks the block and
      stays below `nhdrs_max`. */
  lemma ReserveLeavesRoom(used: nat, rsrv: nat, hasSyms: bool, nbytes: nat)
    requires used <= rsrv <= NhdrsMax
    ensures Reserve(used, rsrv, hasSyms, nbytes).Success? <==>
              nbytes <= NbytesMax &&
              (rsrv - used >= NodeSize(hasSyms, nbytes) ||
               used + BitOr(NodeSize(hasSyms, nbytes), used * 4) <= NhdrsMax)
    ensures Reserve(used, rsrv, hasSyms, nbytes).Success? ==>
              var nr := Reserve(used, rsrv, hasSyms, nbytes).value;
              rsrv <= nr <= NhdrsMax && nr - used >= NodeSize(hasSyms, nbytes)
  {
    BitOrBounds(NodeSize(hasSyms, nbytes), used * 4);
  }

  /** The growth policy can refuse a node that would fit exactly: with a quarter of the
      limit in use and no spare room, one more header makes `nadd | used * 4` too big. */
  lemma GrowthCanRefuseFittingNode()
    ensures var used := 0x0400_0000;
            used + NodeSize(false, 0) <= NhdrsMax &&
            Reserve(used, used, false, 0) == Failure(BadArrayNewLength)
  {
    assert BitOr(0, 0) == 0;
    assert NodeSize(false, 0) == 1;
    assert BitOr(1, 0x1000_0000) >= 0x1000_0000 by {
      BitOrBounds(1, 0x1000_0000);
    }
  }

  // ---------------------------------------------------------------------------
  // Node construction.

  function Zeros(n: nat): (s: seq<bv8>)
    ensures |s| == n && forall i :: 0 <= i < n ==> s[i] == 0
  {
    seq(n, _ => 0)
  }

  /** The node `do_append_trivial` accepts: a bare executor, and the payload copied from
      `src` or zero-filled. */
  function TrivialNode(exec: ExecutorId, uparam: Uparam, syms: Option<Symbols>,
                       src: Option<seq<bv8>>, nbytes: nat): Node
    requires src.Some? ==> |src.value| >= nbytes
  {
    Node(Nphdrs(nbytes), Bare(exec), syms, uparam.x16, uparam.x32,
         if src.Some? then src.value[..nbytes] else Zeros(nbytes))
  }

  /** The node `do_append_nontrivial` accepts: a vtable, and the payload built by the
      constructor (given as the representation it produces) or zero-filled. */
  function NontrivialNode(vtbl: Vtable, uparam: Uparam, syms: Option<Symbols>,
                          nbytes: nat, built: Option<seq<bv8>>): Node
  {
    Node(Nphdrs(nbytes), Table(vtbl), syms, uparam.x16, uparam.x32,
         if built.Some? then built.value else Zeros(nbytes))
  }

  /** What a trivial node reports through its header: its size, the user data given at
      append time, its executor, and no move constructor, destructor or enumerator. */
  lemma TrivialNodeFields(exec: ExecutorId, uparam: Uparam, syms: Option<Symbols>,
                          src: Option<seq<bv8>>, nbytes: nat)
    requires src.Some? ==> |src.value| >= nbytes
    ensures var n := TrivialNode(exec, uparam, syms, src, nbytes);
      && TotalSize(n) == NodeSize(syms.Some?, nbytes)
      && UparamOf(n) == Uparam(0xDEAD, uparam.x16, uparam.x32)
      && ExecutorOf(n) == exec
      && MvctorOpt(n).None? && DtorOpt(n).None? && VnumOpt(n).None?
      && n.syms == syms
      && |n.sparam| == nbytes
      && (src.Some? ==> forall i :: 0 <= i < nbytes ==> n.sparam[i] == src.value[i])
      && (src.None? ==> forall i :: 0 <= i < nbytes ==> n.sparam[i] == 0)
  {
  }

  /** What a non-trivial node reports through its header: its vtable's entries and the
      user data given at append time. */
  lemma NontrivialNodeFields(vtbl: Vtable, uparam: Uparam, syms: Option<Symbols>,
                             nbytes: nat, built: Option<seq<bv8>>)
    ensures var n := NontrivialNode(vtbl, uparam, syms, nbytes, built);
      && TotalSize(n) == NodeSize(syms.Some?, nbytes)
      && UparamOf(n) == Uparam(0xDEAD, uparam.x16, uparam.x32)
      && ExecutorOf(n) == vtbl.executor
      && MvctorOpt(n) == vtbl.mvctor && DtorOpt(n) == vtbl.dtor && VnumOpt(n) == vtbl.vnum
      && n.syms == syms
      && (built.None? ==> n.sparam == Zeros(nbytes))
  {
  }

  /** `do_get_vtable<execT, qvnumT, SparamT>()`: the move constructor is omitted for a
      trivially move-constructible type and the destructor for a trivially destructible
      one. */
  function GetVtable(execT: ExecutorId, vnumT: Option<EnumeratorId>, ty: SparamType): (v: Vtable)
    ensures v.mvctor.None? <==> ty.triviallyMovable
    ensures v.dtor.None? <==> ty.triviallyDestructible
    ensures v.executor == execT && v.vnum == vnumT
  {
    Vtable(if ty.triviallyMovable then None else Some(ty),
           if ty.triviallyDestructible then None else Some(ty),
           execT, vnumT)
  }

  // ---------------------------------------------------------------------------
  // Walking the nodes.

  /** One call to a payload destructor. */
  datatype DtorCall = DtorCall(dtor: SparamType, uparam: Uparam, sparam: seq<bv8>)

  /** The destructor calls `do_destroy_nodes` makes, in node order. */
  function DtorCalls(ns: seq<Node>): seq<DtorCall>
  {
    if |ns| == 0 then []
    else
      var n := ns[|ns| - 1];
      DtorCalls(ns[..|ns| - 1]) +
        (if DtorOpt(n).Some? then [DtorCall(DtorOpt(n).value, UparamOf(n), n.sparam)] else [])
  }

  /** Destroying two runs of nodes is destroying the first, then the second. */
  lemma {:induction false} DtorCallsConcat(a: seq<Node>, b: seq<Node>)
    ensures DtorCalls(a + b) == DtorCalls(a) + DtorCalls(b)
    decreases |b|
  {
    if |b| == 0 {
      assert a + b == a;
    } else {
      var ab := a + b;
      assert ab[..|ab| - 1] == a + b[..|b| - 1];
      assert ab[|ab| - 1] == b[|b| - 1];
      DtorCallsConcat(a, b[..|b| - 1]);
    }
  }

  /** Nodes appended with a trivially destructible payload need no destructor call. */
  lemma {:induction false} NoDtorCallsForTrivialPayloads(ns: seq<Node>)
    requires forall i :: 0 <= i < |ns| ==> DtorOpt(ns[i]).None?
    ensures DtorCalls(ns) == []
    decreases |ns|
  {
    if |ns| > 0 {
      NoDtorCallsForTrivialPayloads(ns[..|ns| - 1]);
    }
  }

  /** What an executor does: the context it leaves, and the status it returns, the
      `Runtime_Error` it raises, or an exception of any other type (`Escaped`). */
  datatype Outcome = Returned(status: Status) | Raised(error: RuntimeError) | Escaped(what: string)

  /** The frame `execute` pushes onto an error raised by a node: one for the node's
      source location when it has symbols, none otherwise. */
  function WithFrame(e: RuntimeError, syms: Option<Symbols>): (r: RuntimeError)
    ensures r.what == e.what
    ensures |r.frames| == |e.frames| + (if syms.Some? then 1 else 0)
    ensures r.frames[..|e.frames|] == e.frames
    ensures syms.Some? ==> r.frames[|e.frames|] == Frame(syms.value.sloc, "")
  {
    if syms.Some? then RuntimeError(e.what, e.frames + [Frame(syms.value.sloc, "")]) else e
  }

  /** `execute(ctx)` over `ns`: each node's executor runs on the context in turn; the
      first status other than `next`, or the first exception, ends the run. Only a
      `Runtime_Error` gets the node's frame; any other exception passes through as is. */
  function RunNodes<C>(ns: seq<Node>, ctx: C,
                       run: (ExecutorId, C, Uparam, seq<bv8>) -> (C, Outcome)): (Outcome, C)
    decreases |ns|
  {
    if |ns| == 0 then (Returned(Next), ctx)
    else
      var q := ns[0];
      var (c, o) := run(ExecutorOf(q), ctx, UparamOf(q), q.sparam);
      match o
      case Raised(e) => (Raised(WithFrame(e, q.syms)), c)
      case Escaped(_) => (o, c)
      case Returned(s) => if s != Next then (Returned(s), c) else RunNodes(ns[1..], c, run)
  }

  /** Running two runs of nodes: the second starts, on the context the first leaves, only
      when the first yields `next`. */
  lemma {:induction false} RunNodesConcat<C>(a: seq<Node>, b: seq<Node>, ctx: C,
                                             run: (ExecutorId, C, Uparam, seq<bv8>) -> (C, Outcome))
    ensures RunNodes(a + b, ctx, run) ==
              if RunNodes(a, ctx, run).0 == Returned(Next) then RunNodes(b, RunNodes(a, ctx, run).1, run)
              else RunNodes(a, ctx, run)
    decreases |a|
  {
    if |a| == 0 {
      assert a + b == b;
    } else {
      assert (a + b)[0] == a[0] && (a + b)[1..] == a[1..] + b;
      var (c, o) := run(ExecutorOf(a[0]), ctx, UparamOf(a[0]), a[0].sparam);
      RunNodesConcat(a[1..], b, c, run);
    }
  }

  /** The outcome of a run is `next` only when every node returned `next`: if it stops
      early, it is on a status or error from one node, and the nodes after it never run. */
  lemma RunStopsAtFirst<C>(a: seq<Node>, b: seq<Node>, ctx: C,
                           run: (ExecutorId, C, Uparam, seq<bv8>) -> (C, Outcome))
    requires RunNodes(a, ctx, run).0 != Returned(Next)
    ensures RunNodes(a + b, ctx, run) == RunNodes(a, ctx, run)
  {
    RunNodesConcat(a, b, ctx, run);
  }

  /** An exception from a node deep in the run: a `Runtime_Error` leaves the run with
      exactly that node's frame added, and any other exception leaves it unchanged.
      The context is the one the throwing executor left. */
  lemma ExceptionLeavesRun<C>(a: seq<Node>, q: Node, b: seq<Node>, ctx: C,
                              run: (ExecutorId, C, Uparam, seq<bv8>) -> (C, Outcome))
    requires RunNodes(a, ctx, run).0 == Returned(Next)
    requires !run(ExecutorOf(q), RunNodes(a, ctx, run).1, UparamOf(q), q.sparam).1.Returned?
    ensures var (c, o) := run(ExecutorOf(q), RunNodes(a, ctx, run).1, UparamOf(q), q.sparam);
            RunNodes(a + [q] + b, ctx, run) ==
              (if o.Raised? then Raised(WithFrame(o.error, q.syms)) else o, c)
  {
    RunNodesConcat(a, [q] + b, ctx, run);
    ConcatAssoc(a, [q], b);
    assert ([q] + b)[0] == q && ([q] + b)[1..] == b;
  }

  /** `enumerate_variables(callback)` over `ns`: the enumerator of each node that has one,
      in node order. */
  function EnumerateNodes<C>(ns: seq<Node>, cb: C,
                             visit: (EnumeratorId, C, Uparam, seq<bv8>) -> C): C
    decreases |ns|
  {
    if |ns| == 0 then cb
    else
      var n := ns[|ns| - 1];
      var c := EnumerateNodes(ns[..|ns| - 1], cb, visit);
      if VnumOpt(n).Some? then visit(VnumOpt(n).value, c, UparamOf(n), n.sparam) else c
  }

  /** Nodes without an enumerator are skipped: enumerating trivial nodes leaves the
      callback as it was. */
  lemma {:induction false} EnumerateSkipsTrivial<C>(ns: seq<Node>, cb: C,
                                                    visit: (EnumeratorId, C, Uparam, seq<bv8>) -> C)
    requires forall i :: 0 <= i < |ns| ==> ns[i].handler.Bare?
    ensures EnumerateNodes(ns, cb, visit) == cb
    decreases |ns|
  {
    if |ns| > 0 {
      EnumerateSkipsTrivial(ns[..|ns| - 1], cb, visit);
    }
  }

  // ---------------------------------------------------------------------------
  // Reloading from AIR nodes.

  /** One node an AIR node asks for while it solidifies: the arguments of
      `do_append_trivial` or of `do_append_nontrivial`. */
  datatype Request =
    | TrivialRequest(exec: ExecutorId, uparam: Uparam, syms: Option<Symbols>,
                     src: Option<seq<bv8>>, nbytes: nat)
    | NontrivialRequest(vtbl: Vtable, uparam: Uparam, syms: Option<Symbols>,
                        nbytes: nat, built: Option<seq<bv8>>)

  /** A request whose source, when given, holds the `nbytes` to copy. */
  type Req = r: Request | r.TrivialRequest? ==> (r.src.Some? ==> |r.src.value| >= r.nbytes)
    witness NontrivialRequest(Vtable(None, None, 0, None), ZeroUparam, None, 0, None)

  /** What `AIR_Node::solidify` does to the queue: the nodes it appends, and whether
      solidifying goes on with the next AIR node. */
  datatype Solidified = Solidified(requests: seq<Req>, proceed: bool)

  function RequestNode(r: Req): Node
  {
    match r
    case TrivialRequest(exec, uparam, syms, src, nbytes) => TrivialNode(exec, uparam, syms, src, nbytes)
    case NontrivialRequest(vtbl, uparam, syms, nbytes, built) => NontrivialNode(vtbl, uparam, syms, nbytes, built)
  }

  /** The nodes a run of requests appends. */
  function RequestNodes(rs: seq<Req>): (ns: seq<Node>)
    ensures |ns| == |rs|
  {
    if |rs| == 0 then [] else [RequestNode(rs[0])] + RequestNodes(rs[1..])
  }

  /** Each request appends its own node, in request order. */
  lemma {:induction false} RequestNodesInOrder(rs: seq<Req>)
    ensures forall i :: 0 <= i < |rs| ==> RequestNodes(rs)[i] == RequestNode(rs[i])
    decreases |rs|
  {
    if |rs| > 0 {
      RequestNodesInOrder(rs[1..]);
      assert forall i :: 1 <= i < |rs| ==> rs[i] == rs[1..][i - 1];
    }
  }

  /** The requests `reload` carries out for `code`: those of every AIR node up to and
      including the first that does not proceed. */
  function Requests<A>(code: seq<A>, solidify: A -> Solidified): seq<Req>
    decreases |code|
  {
    if |code| == 0 then []
    else solidify(code[0]).requests +
         (if solidify(code[0]).proceed then Requests(code[1..], solidify) else [])
  }

  /** Solidifying stops at the first AIR node that declines to go on: nothing after it
      is requested. */
  lemma {:induction false} RequestsStopAt<A>(code: seq<A>, solidify: A -> Solidified, k: int)
    requires 0 <= k < |code| && !solidify(code[k]).proceed
    ensures Requests(code, solidify) == Requests(code[..k + 1], solidify)
    decreases k
  {
    if k > 0 {
      assert code[1..][..k] == code[..k + 1][1..];
      assert code[1..][k - 1] == code[k];
      RequestsStopAt(code[1..], solidify, k - 1);
    } else {
      assert code[..1][1..] == [];
    }
  }

  // ---------------------------------------------------------------------------
  // The queue.

  class Queue {
    var nodes: seq<Node>
    var rsrv: nat
    var used: nat

    /** `m_used` is the headers the nodes take; the block never exceeds `nhdrs_max`. */
    ghost predicate Valid()
      reads this
    {
      used == Footprint(nodes) && used <= rsrv <= NhdrsMax
    }

    /** `AVMC_Queue()`: no block, nothing reserved, nothing used. */
    constructor ()
      ensures Valid() && nodes == [] && rsrv == 0 && used == 0
    {
      nodes, rsrv, used := [], 0, 0;
    }

    /** `AVMC_Queue(AVMC_Queue&& other)`: takes over `other`'s block through `swap`,
        leaving `other` as a default-constructed queue. */
    constructor Moved(other: Queue)
      requires other.Valid()
      modifies other
      ensures Valid() && other.Valid()
      ensures nodes == old(other.nodes) && rsrv == old(other.rsrv) && used == old(other.used)
      ensures other.nodes == [] && other.rsrv == 0 && other.used == 0
    {
      nodes, rsrv, used := other.nodes, other.rsrv, other.used;
      new;
      other.nodes, other.rsrv, other.used := [], 0, 0;
    }

    /** `empty()`. */
    function Empty(): (r: bool)
      requires Valid()
      reads this
      ensures r <==> nodes == []
    {
      FootprintZero(nodes);
      used == 0
    }

    /** `swap(other)` and `operator=(AVMC_Queue&&)`: exchanges the blocks, the reserved
        sizes and the used sizes. */
    method Swap(other: Queue)
      requires Valid() && other.Valid()
      modifies this, other
      ensures Valid() && other.Valid()
      ensures nodes == old(other.nodes) && rsrv == old(other.rsrv) && used == old(other.used)
      ensures other.nodes == old(nodes) && other.rsrv == old(rsrv) && other.used == old(used)
    {
      var n, r, u := nodes, rsrv, used;
      nodes, rsrv, used := other.nodes, other.rsrv, other.used;
      other.nodes, other.rsrv, other.used := n, r, u;
    }

    /** `do_destroy_nodes()`: walks the nodes by their sizes, calling each payload
        destructor; the calls are returned in order. */
    method DestroyNodes() returns (calls: seq<DtorCall>)
      requires Valid()
      ensures calls == DtorCalls(nodes)
    {
      calls := [];
      var off, k := 0, 0;
      while off != used
        invariant 0 <= k <= |nodes| && off == Footprint(nodes[..k])
        invariant calls == DtorCalls(nodes[..k])
        decreases used - off
      {
        FootprintWhole(nodes);
        FootprintPrefix(nodes, k);
        FootprintSnoc(nodes, k);
        var q := nodes[k];
        off, k := off + TotalSize(q), k + 1;
        assert nodes[..k][..k - 1] == nodes[..k - 1];
        if DtorOpt(q).Some? {
          calls := calls + [DtorCall(DtorOpt(q).value, UparamOf(q), q.sparam)];
        }
      }
      if k < |nodes| {
        FootprintPrefix(nodes, k);
      }
      assert nodes[..k] == nodes;
    }

    /** `clear()`: destroys every node and empties the queue, keeping the block. */
    method Clear() returns (calls: seq<DtorCall>)
      requires Valid()
      modifies this
      ensures Valid() && nodes == [] && used == 0 && rsrv == old(rsrv)
      ensures calls == DtorCalls(old(nodes))
    {
      calls := [];
      if used != 0 {
        calls := DestroyNodes();
      } else {
        FootprintZero(nodes);
      }
      nodes, used := [], 0;
    }

    /** `do_reallocate(nadd)`: moves the nodes, unchanged and in order, into a block of
        `used + nadd` headers; fails, changing nothing, past `nhdrs_max`. */
    method Reallocate(nadd: nat) returns (r: Result<(), QueueError>)
      requires Valid()
      modifies this
      ensures Valid()
      ensures NhdrsMax - old(used) < nadd ==>
                r == Failure(BadArrayNewLength) && nodes == old(nodes) && rsrv == old(rsrv) && used == old(used)
      ensures NhdrsMax - old(used) >= nadd ==>
                r == Success(()) && rsrv == old(used) + nadd && nodes == old(nodes) && used == old(used)
    {
      if NhdrsMax - used < nadd {
        return Failure(BadArrayNewLength);
      }
      rsrv := used + nadd;
      r := Success(());
    }

    /** `shrink_to_fit()`: nothing when the block is full; otherwise a reallocation to
        exactly the used size. */
    method ShrinkToFit()
      requires Valid()
      modifies this
      ensures Valid() && nodes == old(nodes) && used == old(used) && rsrv == used
    {
      if used == rsrv {
        return;
      }
      var r := Reallocate(0);
    }

    /** `do_reserve_one(uparam, syms_opt, nbytes)`: rejects an oversized payload, and
        grows the block when the node does not fit. The header itself is written by the
        caller here. */
    method ReserveOne(hasSyms: bool, nbytes: nat) returns (r: Result<(), QueueError>)
      requires Valid()
      modifies this
      ensures Valid() && nodes == old(nodes) && used == old(used)
      ensures match Reserve(old(used), old(rsrv), hasSyms, nbytes)
        case Failure(e) => r == Failure(e) && rsrv == old(rsrv)
        case Success(nr) => r == Success(()) && rsrv == nr && rsrv - used >= NodeSize(hasSyms, nbytes)
    {
      ReserveLeavesRoom(used, rsrv, hasSyms, nbytes);
      if nbytes > NbytesMax {
        return Failure(InvalidNodeSize(nbytes));
      }
      var nadd := 1 + SymbolSizeInHeaders(hasSyms) + Nphdrs(nbytes);
      if rsrv - used < nadd {
        nadd := BitOr(nadd, used * 4);
        r := Reallocate(nadd);
        if r.Failure? {
          return;
        }
      }
      r := Success(());
    }

    /** Accepts a node whose room has been reserved: `m_used += total_size_in_headers()`. */
    method Accept(n: Node)
      requires Valid() && rsrv - used >= TotalSize(n)
      modifies this
      ensures Valid() && nodes == old(nodes) + [n] && used == old(used) + TotalSize(n)
      ensures rsrv == old(rsrv)
    {
      FootprintAppend(nodes, n);
      nodes := nodes + [n];
      used := used + TotalSize(n);
    }

    /** `do_append_trivial(exec, uparam, syms_opt, src_opt, nbytes)`. */
    method AppendTrivialNode(exec: ExecutorId, uparam: Uparam, syms: Option<Symbols>,
                             src: Option<seq<bv8>>, nbytes: nat)
      returns (r: Result<(), QueueError>)
      requires Valid() && (src.Some? ==> |src.value| >= nbytes)
      modifies this
      ensures Valid()
      ensures match Reserve(old(used), old(rsrv), syms.Some?, nbytes)
        case Failure(e) => r == Failure(e) && nodes == old(nodes) && rsrv == old(rsrv) && used == old(used)
        case Success(nr) =>
          (r == Success(()) && rsrv == nr
           && nodes == old(nodes) + [TrivialNode(exec, uparam, syms, src, nbytes)]
           && used == old(used) + NodeSize(syms.Some?, nbytes))
    {
      r := ReserveOne(syms.Some?, nbytes);
      if r.Failure? {
        return;
      }
      Accept(TrivialNode(exec, uparam, syms, src, nbytes));
    }

    /** `do_append_nontrivial(vtbl, uparam, syms_opt, nbytes, ctor_opt, ctor_arg)`: the
        constructor's outcome is `ctor` (none when `ctor_opt` is null). A constructor that
        throws leaves the nodes as they were, though the block may have grown. */
    method AppendNontrivialNode(vtbl: Vtable, uparam: Uparam, syms: Option<Symbols>, nbytes: nat,
                                ctor: Option<Result<seq<bv8>, RuntimeError>>)
      returns (r: Result<(), QueueError>)
      requires Valid()
      modifies this
      ensures Valid() && (r.Failure? ==> nodes == old(nodes) && used == old(used))
      ensures match Reserve(old(used), old(rsrv), syms.Some?, nbytes)
        case Failure(e) => r == Failure(e) && nodes == old(nodes) && rsrv == old(rsrv) && used == old(used)
        case Success(nr) =>
          rsrv == nr &&
          if ctor.Some? && ctor.value.Failure? then r == Failure(Thrown(ctor.value.error))
          else
            (r == Success(())
             && nodes == old(nodes) + [NontrivialNode(vtbl, uparam, syms, nbytes,
                                                      if ctor.Some? then Some(ctor.value.value) else None)]
             && used == old(used) + NodeSize(syms.Some?, nbytes))
    {
      r := ReserveOne(syms.Some?, nbytes);
      if r.Failure? {
        return;
      }
      var built: Option<seq<bv8>> := None;
      if ctor.Some? {
        if ctor.value.Failure? {
          return Failure(Thrown(ctor.value.error));
        }
        built := Some(ctor.value.value);
      }
      Accept(NontrivialNode(vtbl, uparam, syms, nbytes, built));
    }

    /** The `append_trivial` overloads, and `append<execT, nullptr>` with no payload: a bare
        executor, optional symbols, user data (zero when omitted) and an optional source
        of `nbytes` (none and zero when omitted). */
    method AppendTrivial(exec: ExecutorId, syms: Option<Symbols>, uparam: Uparam,
                         src: Option<seq<bv8>>, nbytes: nat)
      returns (r: Result<(), QueueError>)
      requires Valid() && (src.Some? ==> |src.value| >= nbytes)
      modifies this
      ensures Valid()
      ensures r.Failure? ==> nodes == old(nodes) && rsrv == old(rsrv) && used == old(used)
      ensures r.Success? <==> Reserve(old(used), old(rsrv), syms.Some?, nbytes).Success?
      ensures r.Success? ==>
                && nodes == old(nodes) + [TrivialNode(exec, uparam, syms, src, nbytes)]
                && nodes[|old(nodes)|].handler == Bare(exec)
                && rsrv == Reserve(old(used), old(rsrv), syms.Some?, nbytes).value
                && used == old(used) + NodeSize(syms.Some?, nbytes)
    {
      r := AppendTrivialNode(exec, uparam, syms, src, nbytes);
    }

    /** The generic `append<execT, qvnumT>(syms?, sparam)` and
        `append<execT, qvnumT>(syms?, uparam, sparam)` overloads: a trivial payload type
        takes the bare-executor path with the payload's bytes; any other takes the vtable
        path, where the payload is built by its forwarding constructor, which throws
        `ctorThrew` when that is given. On the vtable path without symbols, the user data
        is dropped and zero is stored instead. */
    method Append(execT: ExecutorId, vnumT: Option<EnumeratorId>, syms: Option<Symbols>,
                  uparam: Option<Uparam>, x: Payload, ctorThrew: Option<RuntimeError>)
      returns (r: Result<(), QueueError>)
      requires Valid() && |x.bytes| == x.ty.size
      modifies this
      ensures Valid()
      ensures r.Failure? ==> nodes == old(nodes) && used == old(used)
      ensures match Reserve(old(used), old(rsrv), syms.Some?, x.ty.size)
        case Failure(e) => r == Failure(e) && rsrv == old(rsrv)
        case Success(nr) =>
          rsrv == nr &&
          (r.Failure? <==> !x.ty.trivial && ctorThrew.Some?) &&
          (r.Failure? ==> r.error == Thrown(ctorThrew.value))
      ensures r.Success? ==>
                var given := if uparam.Some? then uparam.value else ZeroUparam;
                var stored := if x.ty.trivial || syms.Some? then given else ZeroUparam;
                && |nodes| == |old(nodes)| + 1 && nodes[..|old(nodes)|] == old(nodes)
                && var n := nodes[|old(nodes)|];
                && n.handler == (if x.ty.trivial then Bare(execT) else Table(GetVtable(execT, vnumT, x.ty)))
                && UparamOf(n) == Uparam(0xDEAD, stored.x16, stored.x32)
                && n.sparam == x.bytes
                && n.syms == syms
                && used == old(used) + NodeSize(syms.Some?, x.ty.size)
    {
      var given := if uparam.Some? then uparam.value else ZeroUparam;
      if x.ty.trivial {
        r := AppendTrivialNode(execT, given, syms, Some(x.bytes), x.ty.size);
        assert x.bytes[..x.ty.size] == x.bytes;
      } else {
        var u := if syms.Some? then given else ZeroUparam;
        var ctor := if ctorThrew.Some? then Failure(ctorThrew.value) else Success(x.bytes);
        r := AppendNontrivialNode(GetVtable(execT, vnumT, x.ty), u, syms, x.ty.size, Some(ctor));
      }
    }

    /** `execute(ctx)`: runs the executors from the first node, walking by node sizes,
        and stops at the first status other than `next`. An error gets the node's frame
        before it propagates. */
    method Execute<C>(ctx: C, run: (ExecutorId, C, Uparam, seq<bv8>) -> (C, Outcome))
      returns (out: Outcome, ctxOut: C)
      requires Valid()
      ensures (out, ctxOut) == RunNodes(nodes, ctx, run)
    {
      var status := Next;
      var off, k, c := 0, 0, ctx;
      while off != used
        invariant 0 <= k <= |nodes| && off == Footprint(nodes[..k])
        invariant RunNodes(nodes[k..], c, run) == RunNodes(nodes, ctx, run)
        invariant status == Next
        decreases used - off
      {
        FootprintWhole(nodes);
        FootprintPrefix(nodes, k);
        FootprintSnoc(nodes, k);
        var q := nodes[k];
        assert nodes[k..][0] == q && nodes[k..][1..] == nodes[k + 1..];
        off, k := off + TotalSize(q), k + 1;
        var (c1, o) := run(ExecutorOf(q), c, UparamOf(q), q.sparam);
        c := c1;
        if o.Raised? {
          return Raised(WithFrame(o.error, q.syms)), c;
        } else if o.Escaped? {
          return o, c;
        }
        status := o.status;
        if status != Next {
          break;
        }
      }
      if status == Next && k < |nodes| {
        FootprintPrefix(nodes, k);
      }
      return Returned(status), c;
    }

    /** `enumerate_variables(callback)`: calls the enumerator of every node that has one. */
    method EnumerateVariables<C>(cb: C, visit: (EnumeratorId, C, Uparam, seq<bv8>) -> C)
      returns (out: C)
      requires Valid()
      ensures out == EnumerateNodes(nodes, cb, visit)
    {
      out := cb;
      var off, k := 0, 0;
      while off != used
        invariant 0 <= k <= |nodes| && off == Footprint(nodes[..k])
        invariant out == EnumerateNodes(nodes[..k], cb, visit)
        decreases used - off
      {
        FootprintWhole(nodes);
        FootprintPrefix(nodes, k);
        FootprintSnoc(nodes, k);
        var q := nodes[k];
        off, k := off + TotalSize(q), k + 1;
        assert nodes[..k][..k - 1] == nodes[..k - 1];
        if q.handler.Table? && q.handler.vtable.vnum.Some? {
          out := visit(q.handler.vtable.vnum.value, out, UparamOf(q), q.sparam);
        }
      }
      if k < |nodes| {
        FootprintPrefix(nodes, k);
      }
      assert nodes[..k] == nodes;
    }

    /** `reload(code)`: clears the queue, solidifies the AIR nodes in order until one
        declines to go on, and shrinks the block to fit. An append that fails propagates
        its error and leaves the nodes appended so far: a proper prefix of those asked for. */
    method Reload<A>(code: seq<A>, solidify: A -> Solidified) returns (r: Result<(), QueueError>)
      requires Valid()
      modifies this
      ensures Valid()
      ensures r.Success? ==> nodes == RequestNodes(Requests(code, solidify)) && rsrv == used
      ensures r.Failure? ==> nodes < RequestNodes(Requests(code, solidify))
    {
      var calls := Clear();
      r := SolidifyAll(code, solidify);
      if r.Failure? {
        return;
      }
      ShrinkToFit();
    }

    /** The loop of `reload`: solidifies each AIR node in turn, stopping after the first
        that declines to go on. */
    method SolidifyAll<A>(code: seq<A>, solidify: A -> Solidified) returns (r: Result<(), QueueError>)
      requires Valid()
      modifies this
      ensures Valid()
      ensures r.Success? ==> nodes == old(nodes) + RequestNodes(Requests(code, solidify))
      ensures r.Failure? ==> old(nodes) <= nodes < old(nodes) + RequestNodes(Requests(code, solidify))
    {
      ghost var all := old(nodes) + RequestNodes(Requests(code, solidify));
      var i, stop := 0, false;
      while i < |code| && !stop
        invariant 0 <= i <= |code| && Valid() && old(nodes) <= nodes
        invariant !stop ==> nodes + RequestNodes(Requests(code[i..], solidify)) == all
        invariant stop ==> nodes == all
      {
        var s := solidify(code[i]);
        ghost var rest := if s.proceed then Requests(code[i + 1..], solidify) else [];
        RequestsStep(code, i, solidify);
        ghost var before := nodes;
        r := PerformAll(s.requests);
        if r.Failure? {
          FailedStepIsPrefix(before, nodes, s.requests, rest, all);
          return;
        }
        SolidifyStep(before, nodes, s.requests, rest, all);
        stop := !s.proceed;
        i := i + 1;
      }
      if !stop {
        assert code[i..] == [];
      }
      r := Success(());
    }

    /** Carries out one append an AIR node asks for. */
    method Perform(q: Req) returns (r: Result<(), QueueError>)
      requires Valid()
      modifies this
      ensures Valid()
      ensures r.Success? ==> nodes == old(nodes) + [RequestNode(q)]
      ensures r.Failure? ==> nodes == old(nodes)
    {
      if q.TrivialRequest? {
        r := AppendTrivialNode(q.exec, q.uparam, q.syms, q.src, q.nbytes);
      } else {
        r := AppendNontrivialNode(q.vtbl, q.uparam, q.syms, q.nbytes,
                                  if q.built.Some? then Some(Success(q.built.value)) else None);
      }
    }

    /** Carries out the appends one AIR node asks for, in order. */
    method PerformAll(rs: seq<Req>) returns (r: Result<(), QueueError>)
      requires Valid()
      modifies this
      ensures Valid()
      ensures r.Success? ==> nodes == old(nodes) + RequestNodes(rs)
      ensures r.Failure? ==> old(nodes) <= nodes < old(nodes) + RequestNodes(rs)
    {
      var j := 0;
      while j < |rs|
        invariant 0 <= j <= |rs| && Valid()
        invariant nodes == old(nodes) + RequestNodes(rs[..j])
      {
        RequestNodesSnoc(rs, j);
        r := Perform(rs[j]);
        if r.Failure? {
          RequestNodesSplit(rs, j);
          return;
        }
        j := j + 1;
      }
      assert rs[..j] == rs;
      r := Success(());
    }
  }

  lemma RequestsStep<A>(code: seq<A>, i: int, solidify: A -> Solidified)
    requires 0 <= i < |code|
    ensures Requests(code[i..], solidify) ==
              solidify(code[i]).requests +
              (if solidify(code[i]).proceed then Requests(code[i + 1..], solidify) else [])
  {
    assert code[i..][0] == code[i] && code[i..][1..] == code[i + 1..];
  }

  lemma SolidifyStep(before: seq<Node>, after: seq<Node>, reqs: seq<Req>, rest: seq<Req>, all: seq<Node>)
    requires after == before + RequestNodes(reqs)
    requires before + RequestNodes(reqs + rest) == all
    ensures after + RequestNodes(rest) == all
  {
    RequestNodesConcat(reqs, rest);
    ConcatAssoc(before, RequestNodes(reqs), RequestNodes(rest));
  }

  lemma FailedStepIsPrefix(before: seq<Node>, after: seq<Node>, reqs: seq<Req>, rest: seq<Req>, all: seq<Node>)
    requires before <= after < before + RequestNodes(reqs)
    requires before + RequestNodes(reqs + rest) == all
    ensures before <= after < all
  {
    RequestNodesConcat(reqs, rest);
    ConcatAssoc(before, RequestNodes(reqs), RequestNodes(rest));
    ProperPrefixOfLonger(after, before + RequestNodes(reqs), RequestNodes(rest));
  }

  lemma ConcatAssoc<T>(a: seq<T>, b: seq<T>, c: seq<T>)
    ensures (a + b) + c == a + (b + c)
  {
  }

  lemma ProperPrefixOfLonger<T>(a: seq<T>, b: seq<T>, c: seq<T>)
    requires a < b
    ensures a < b + c
  {
    assert (b + c)[..|a|] == b[..|a|];
  }

  /** The nodes of a run stopped before request `j` are a proper prefix of the run's. */
  lemma RequestNodesSplit(rs: seq<Req>, j: int)
    requires 0 <= j < |rs|
    ensures RequestNodes(rs[..j]) < RequestNodes(rs)
  {
    RequestNodesConcat(rs[..j], rs[j..]);
    assert rs[..j] + rs[j..] == rs;
  }

  lemma RequestNodesSnoc(rs: seq<Req>, j: int)
    requires 0 <= j < |rs|
    ensures RequestNodes(rs[..j + 1]) == RequestNodes(rs[..j]) + [RequestNode(rs[j])]
  {
    RequestNodesConcat(rs[..j], [rs[j]]);
    assert rs[..j + 1] == rs[..j] + [rs[j]];
  }

  /** Building the nodes of two runs of requests is building each in turn. */
  lemma {:induction false} RequestNodesConcat(a: seq<Req>, b: seq<Req>)
    ensures RequestNodes(a + b) == RequestNodes(a) + RequestNodes(b)
    decreases |a|
  {
    if |a| == 0 {
      assert a + b == b;
    } else {
      assert (a + b)[0] == a[0] && (a + b)[1..] == a[1..] + b;
      RequestNodesConcat(a[1..], b);
    }
  }
}
