/** The Python objects a traversal prints, and what each of their repr functions visits under which guards. */
module Heap {
  import opened Graphs
  import opened Wrappers

  datatype Options = Options(isShort: bool, frameOmitBack: bool, frameOmitLocals: bool, maxEntries: int)

  /** A field of an async future: the object, and whether short output shows it. */
  datatype Field = Field(addr: Addr, inShort: bool)

  /** The frame of a coroutine: none to show (null, or failing its own check), one whose reading or check throws, or one
      with the file name of its code, which is None where reading or checking the code object throws. */
  datatype FrameRef = NoFrame | FaultyFrame(fault: Fault) | FrameAt(file: Option<Addr>)

  /** What reading an object's bytes yields. `Leaf` is any object printed without looking at another one, `BadDict` a
      dict that fails its own checks, `Faulty` an object whose checks throw; an optional part is None where reading it
      throws. For an entry of a dict that cannot happen on objects read from memory, as the check of a dict reads all
      its items first: such a dict is `Unreadable`. The `attributes` of a user object are null if its type has no dict
      offset; one whose dict pointer cannot be followed is a `Leaf`. */
  datatype Obj =
    | Leaf
    | BadDict
    | Unreadable
    | Faulty(fault: Fault)
    | Tuple(items: seq<Addr>)
    | List(items: seq<Addr>)
    | Set(table: seq<Addr>)
    | Dict(pairs: seq<Option<(Addr, Addr)>>)
    | Cell(ref: Addr)
    | Code(name: Addr, filename: Addr, rootFields: seq<Addr>)
    | Type(base: Addr, dict: Addr, others: seq<Addr>)
    | User(slots: seq<Option<Addr>>, attributes: Addr)
    | Future(fields: seq<Field>)
    | Task(fields: seq<Field>, coro: Addr, waiter: Addr, taskName: Addr, context: Addr)
    | Gathering(fields: seq<Field>, children: Option<seq<Addr>>)
    | Generator(genFields: seq<Addr>)
    | Coroutine(genFields: seq<Addr>, qualname: Addr, frame: FrameRef)
    | Frame(
        where: Option<Addr>, back: Addr, code: Addr, locals: Addr, trace: Addr, gen: Addr,
        variables: Option<seq<(Addr, Addr)>>)

  type Heap = map<Addr, Obj>

  /** One action of a repr body. */
  datatype Op =
    | Visit(addr: Addr)                     // nested repr
    | Indent(ops: seq<Op>)                  // under an indent guard
    | Try(keeps: bool, ops: seq<Op>)        // inside a catch for every exception; `keeps` what was printed before it
    | LimitTo(depth: int, ops: seq<Op>)     // with max_recursion_depth overwritten and put back afterwards
    | Throw(fault: Fault)

  function Visits(addrs: seq<Addr>): (ops: seq<Op>)
    ensures |ops| == |addrs| && forall i | 0 <= i < |addrs| :: ops[i] == Visit(addrs[i])
  {
    if addrs == [] then [] else [Visit(addrs[0])] + Visits(addrs[1..])
  }

  function NonNull(addrs: seq<Addr>): seq<Addr> {
    if addrs == [] then [] else (if addrs[0] == NULL then [] else [addrs[0]]) + NonNull(addrs[1..])
  }

  /** The entries a container shows: all of them, or the first `max`. */
  function Shown<T>(items: seq<T>, max: int): seq<T> {
    if 0 <= max < |items| then items[..max] else items
  }

  function PairAddrs(pairs: seq<Option<(Addr, Addr)>>): seq<Addr> {
    if pairs == [] then []
    else (match pairs[0] case Some((k, v)) => [k, v] case None => []) + PairAddrs(pairs[1..])
  }

  function VariableAddrs(variables: seq<(Addr, Addr)>): seq<Addr> {
    if variables == [] then [] else [variables[0].0, variables[0].1] + VariableAddrs(variables[1..])
  }

  function FieldAddrs(fields: seq<Field>, isShort: bool): seq<Addr> {
    if fields == [] then []
    else
      (if fields[0].addr != NULL && (fields[0].inShort || !isShort) then [fields[0].addr] else [])
      + FieldAddrs(fields[1..], isShort)
  }

  /** PyFrameObject::where: the file name, with every exception caught. */
  function WhereOps(where: Option<Addr>): seq<Op> {
    [Try(false, match where case Some(f) => [Visit(f)] case None => [Throw(InvalidObject)])]
  }

  function FrameOps(f: Obj, o: Options): seq<Op>
    requires f.Frame?
  {
    WhereOps(f.where)
    + (if o.isShort then []
       else
         (if o.frameOmitBack then [] else [Visit(f.back)])
         + Visits([f.code, f.locals, f.trace, f.gen])
         + (if o.frameOmitLocals then []
            else [Try(false, match f.variables
                             case Some(vs) => [Indent(Visits(VariableAddrs(vs)))]
                             case None => [Throw(InvalidObject)])]))
  }

  /** What short output shows of a coroutine's frame after its name. */
  function FrameRefOps(frame: FrameRef): seq<Op> {
    match frame
    case NoFrame => []
    case FaultyFrame(f) => [Throw(f)]
    case FrameAt(file) => WhereOps(file)
  }

  function SlotOps(slots: seq<Option<Addr>>): (ops: seq<Op>)
    ensures |ops| == |slots|
    ensures forall i | 0 <= i < |slots| ::
      ops[i] == if slots[i].Some? then Visit(slots[i].value) else Throw(OutOfRange)
  {
    if slots == [] then []
    else [match slots[0] case Some(a) => Visit(a) case None => Throw(OutOfRange)] + SlotOps(slots[1..])
  }

  /** How an object is printed. */
  datatype Plan =
    | Text                                                    // no nested repr
    | Fails(fault: Fault)                                     // its validation throws
    | Empty                                                   // an empty list: only the depth is checked
    | Guarded(checkFirst: bool, indents: bool, ops: seq<Op>)  // under a cycle guard, the depth check before or after it
    | Slots(ops: seq<Op>)                                     // under a cycle guard that is not consulted, at any depth
    | Bare(ops: seq<Op>)                                      // without a cycle guard

  /** The `__dict__` of a user object must have the dict type; otherwise nothing is expanded. */
  predicate DictTyped(h: Heap, a: Addr) { a == NULL || (a in h && (h[a].Dict? || h[a].BadDict?)) }

  /** The dispatch of Traversal::repr; `root` tells that no object is in progress. */
  function PlanOf(h: Heap, o: Options, root: bool, obj: Obj): Plan {
    match obj
    case Leaf => Text
    case BadDict => Text
    case Unreadable => Fails(OutOfRange)
    case Faulty(f) => Fails(f)
    case Tuple(items) => Guarded(true, true, Visits(Shown(items, o.maxEntries)))
    case List(items) => if items == [] then Empty else Guarded(true, false, Visits(Shown(items, o.maxEntries)))
    case Set(table) => Guarded(true, true, Visits(Shown(NonNull(table), o.maxEntries)))
    case Dict(pairs) => Guarded(false, true, Visits(PairAddrs(Shown(pairs, o.maxEntries))))
    case Cell(ref) => Guarded(true, true, [Visit(ref)])
    case Code(name, filename, rootFields) =>
      Guarded(true, true, Visits([name, filename] + (if root then rootFields else [])))
    case Type(base, dict, others) =>
      if root then Guarded(false, true, [Visit(base), LimitTo(2, [Visit(dict)])] + Visits(others)) else Text
    case User(slots, attributes) =>
      if !root || !DictTyped(h, attributes) then Text
      else if slots == [] then Bare([Visit(attributes)])
      else Slots(SlotOps(slots) + (if attributes == NULL then [] else [Indent([Visit(attributes)])]))
    case Future(fields) => Guarded(true, true, Visits(FieldAddrs(fields, o.isShort)))
    case Task(fields, coro, waiter, taskName, context) =>
      Guarded(true, true,
        Visits(FieldAddrs(fields, o.isShort) + [coro] + (if o.isShort then [] else [waiter, taskName, context])))
    case Gathering(fields, children) =>
      Guarded(true, true,
        Visits(FieldAddrs(fields, o.isShort))
        + (if o.isShort then []
           else [Try(true, match children case Some(cs) => Visits(cs) case None => [Throw(RuntimeError)])]))
    case Generator(genFields) => Guarded(true, true, Visits(NonNull(genFields)))
    case Coroutine(genFields, qualname, frame) =>
      if o.isShort then Bare([Visit(qualname)] + FrameRefOps(frame))
      else Guarded(true, true, Visits(NonNull(genFields)))
    case Frame(_, _, _, _, _, _, _) => Guarded(true, true, FrameOps(obj, o))
  }

  /** Short output checks the frame of a coroutine outside any catch, and every output the object itself. */
  predicate CheckThrows(o: Options, obj: Obj, f: Fault) {
    f != OutOfRange && (obj == Faulty(f) || (o.isShort && obj.Coroutine? && obj.frame == FaultyFrame(f)))
  }

  predicate HasThrowingCheck(o: Options, obj: Obj) {
    (obj.Faulty? && CheckThrows(o, obj, obj.fault))
    || (obj.Coroutine? && obj.frame.FaultyFrame? && CheckThrows(o, obj, obj.frame.fault))
  }

  /** Which objects are expanded only when no other is in progress, and which ones throw. */
  lemma PlanKinds(h: Heap, o: Options, root: bool, a: Addr)
    ensures a in h ==>
      var plan := PlanOf(h, o, root, h[a]);
      && (plan.Slots? || (h[a].Type? && plan.Guarded?) ==> root)
      && (plan.Bare? ==> root || o.isShort)
      && (plan.Guarded? ==> !h[a].User?)
      && (plan.Fails? ==> plan.fault == OutOfRange || h[a] == Faulty(plan.fault))
  {
  }
}
