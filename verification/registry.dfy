/** The plugin registry and lifecycle bookkeeping of `Node`, written twice in the
    source (the class in lib/node.js and the prototype version in
    lib/node/node.js) with the same behaviour. */
module Registry {
  import opened Wrappers

  /** A property of a plugin instance: absent or falsy, a function, or some other
      truthy value. */
  datatype Slot = Missing | Fn | NotFn

  /** A plugin instance, as far as the node looks at it; `tag` tells instances
      apart. */
  datatype Inst = Inst(tag: nat, open: Slot, close: Slot, on: Slot)

  /** The `id` of a plugin object: falsy, a string, or a truthy non-string. The
      empty string is falsy, so `IdText("")` behaves as `NoId`. */
  datatype PluginId = NoId | IdText(s: string) | IdOther

  /** What `use` is given: not an object at all, or an object whose `init`, when
      it is a function, yields the instance (`None` when `init` is not a function). */
  datatype Plugin = NotPlugin | Plugin(init: Option<Inst>, id: PluginId)

  /** An entry of the `plugins` option: a name for the loader, or a plugin. */
  datatype Entry = Named(name: string) | Given(plugin: Plugin)

  /** An `(obj, event, listener)` triple handed to `bind`. */
  datatype Triple = Triple(emitter: nat, event: string, listener: nat)

  /** The assertion that fails. */
  datatype NodeError =
    | NotAnObject               // `Plugin must be an object.`
    | NoInit                    // `init` must be a function
    | AfterLoad                 // cannot add a plugin once loaded
    | OpenNotFunction
    | CloseNotFunction
    | IdNotString
    | AlreadyAdded(id: string)  // a reserved or a taken id
    | NotLoaded(name: string)   // `get` on an unset reserved field, or `require` on nothing
    | NoLoader                  // a named plugin without a `loader` option

  /** The node's bookkeeping: the ordered stack of every instance, the index of
      instances with an id, the dedicated fields for the built-in services (a
      key is present when the field is set), the bound triples, the listeners
      the emitters hold, the start-time sentinel, the loaded flag, and the
      instances whose `error` events are forwarded. */
  datatype Node = Node(
    stack: seq<Inst>,
    plugins: map<string, Inst>,
    services: map<string, Inst>,
    bound: seq<Triple>,
    listening: multiset<Triple>,
    startTime: int,
    loaded: bool,
    forwarded: seq<Inst>)

  /** The ids `use` refuses: the built-in services. */
  predicate Reserved(name: string) {
    name in {"chain", "fees", "mempool", "miner", "pool", "rpc", "http", "wallet", "stratum"}
  }

  /** The id `use` indexes the instance under, if any. */
  function IdOf(id: PluginId): Option<string> {
    if id.IdText? && id.s != [] then Some(id.s) else None
  }

  /** A node as constructed: nothing registered, nothing bound, not started. */
  function Initial(services: map<string, Inst>): Node {
    Node([], map[], services, [], multiset{}, -1, false, [])
  }

  /** `node.use(plugin)`: the checks in the order the source makes them, then the
      instance indexed under its id (when it has one), pushed on the stack, and
      its `error` events forwarded when it is an emitter. */
  function Use(n: Node, p: Plugin): (r: Result<(Node, Inst), NodeError>)
    ensures n.loaded ==> r.Err?
    ensures r.Ok? ==> p.Plugin? && p.init == Some(r.value.1)
    ensures r.Ok? ==> r.value.0.stack == n.stack + [r.value.1]
    ensures r.Ok? ==>
      && r.value.0.services == n.services && r.value.0.bound == n.bound
      && r.value.0.listening == n.listening && r.value.0.startTime == n.startTime && r.value.0.loaded == n.loaded
    ensures r.Ok? ==> r.value.0.forwarded == n.forwarded + (if r.value.1.on == Fn then [r.value.1] else [])
  {
    if p.NotPlugin? then Err(NotAnObject)
    else if p.init.None? then Err(NoInit)
    else if n.loaded then Err(AfterLoad)
    else
      var inst := p.init.value;
      if inst.open == NotFn then Err(OpenNotFunction)
      else if inst.close == NotFn then Err(CloseNotFunction)
      else if p.id == IdOther then Err(IdNotString)
      else if IdOf(p.id).Some? && Reserved(IdOf(p.id).value) then Err(AlreadyAdded(IdOf(p.id).value))
      else if IdOf(p.id).Some? && IdOf(p.id).value in n.plugins then Err(AlreadyAdded(IdOf(p.id).value))
      else
        var plugins := if IdOf(p.id).Some? then n.plugins[IdOf(p.id).value := inst] else n.plugins;
        var forwarded := if inst.on == Fn then n.forwarded + [inst] else n.forwarded;
        Ok((n.(plugins := plugins, stack := n.stack + [inst], forwarded := forwarded), inst))
  }

  /** `node.has(name)`: only the custom-plugin index is consulted. */
  function Has(n: Node, name: string): (r: bool)
    ensures Valid(n) && Reserved(name) ==> !r
  {
    name in n.plugins
  }

  /** `node.get(name)`: a reserved name yields its dedicated field, which must be
      set; any other name the indexed instance or nothing. */
  function Get(n: Node, name: string): (r: Result<Option<Inst>, NodeError>)
    ensures r.Err? <==> Reserved(name) && name !in n.services
    ensures r.Err? ==> r.error == NotLoaded(name)
    ensures Reserved(name) && name in n.services ==> r == Ok(Some(n.services[name]))
    ensures !Reserved(name) ==> r == Ok(if Has(n, name) then Some(n.plugins[name]) else None)
  {
    if Reserved(name) then
      if name in n.services then Ok(Some(n.services[name])) else Err(NotLoaded(name))
    else Ok(if name in n.plugins then Some(n.plugins[name]) else None)
  }

  /** `node.require(name)`: `get`, failing on nothing. */
  function Require(n: Node, name: string): (r: Result<Inst, NodeError>)
    ensures r.Ok? <==> Get(n, name).Ok? && Get(n, name).value.Some?
    ensures r.Ok? ==> Get(n, name).value == Some(r.value)
    ensures r.Err? ==> r.error == NotLoaded(name)
  {
    var o :- Get(n, name);
    if o.None? then Err(NotLoaded(name)) else Ok(o.value)
  }

  /** What an entry of the `plugins` option stands for: a string goes through the
      loader, which must be given. */
  function Resolve(e: Entry, loader: Option<string -> Plugin>): Result<Plugin, NodeError> {
    match e
    case Named(name) => if loader.None? then Err(NoLoader) else Ok(loader.value(name))
    case Given(p) => Ok(p)
  }

  /** `node.loadPlugins()` over the `plugins` option and the `loader` option:
      every entry is resolved and used in order, and the first failure ends the
      load. On success the stack has grown by the entries' instances, in order. */
  function LoadPlugins(n: Node, entries: seq<Entry>, loader: Option<string -> Plugin>): (r: Result<Node, NodeError>)
    ensures r.Ok? ==> |r.value.stack| == |n.stack| + |entries| && r.value.stack[..|n.stack|] == n.stack
    ensures r.Ok? ==> forall i :: 0 <= i < |entries| ==>
      var p := Resolve(entries[i], loader);
      p.Ok? && p.value.Plugin? && p.value.init == Some(r.value.stack[|n.stack| + i])
    ensures r.Ok? ==> r.value.services == n.services && r.value.bound == n.bound && r.value.loaded == n.loaded
    decreases |entries|
  {
    if entries == [] then Ok(n)
    else
      var p :- Resolve(entries[0], loader);
      var (n', _) :- Use(n, p);
      var r :- LoadPlugins(n', entries[1..], loader);
      assert r.stack[..|n'.stack|] == n'.stack;
      assert forall i :: 1 <= i < |entries| ==> entries[1..][i - 1] == entries[i];
      Ok(r)
  }

  /** Which lifecycle method a walk calls. */
  datatype Phase = Opening | Closing

  function SlotOf(i: Inst, ph: Phase): Slot {
    if ph == Opening then i.open else i.close
  }

  /** The calls `openPlugins` / `closePlugins` make over `stack`, in order, and
      whether the walk finished: a method that is present is awaited, and the
      first one that rejects (its instance's tag is in `fails`) ends the walk. */
  function Walk(stack: seq<Inst>, ph: Phase, fails: set<nat>): (r: (seq<Inst>, bool))
    ensures |r.0| <= |stack|
    ensures !r.1 ==> r.0 != [] && r.0[|r.0| - 1].tag in fails
    ensures fails == {} ==> r == (Defining(stack, ph), true)
    decreases |stack|
  {
    if stack == [] then ([], true)
    else if SlotOf(stack[0], ph) == Missing then
      assert Defining(stack, ph) == [] + Defining(stack[1..], ph) == Defining(stack[1..], ph);
      Walk(stack[1..], ph, fails)
    else if stack[0].tag in fails then ([stack[0]], false)
    else
      var (calls, ok) := Walk(stack[1..], ph, fails);
      ([stack[0]] + calls, ok)
  }

  /** The instances of `stack` that define the phase's method, in stack order. */
  function Defining(stack: seq<Inst>, ph: Phase): seq<Inst>
    decreases |stack|
  {
    if stack == [] then []
    else (if SlotOf(stack[0], ph) != Missing then [stack[0]] else []) + Defining(stack[1..], ph)
  }

  /** `node.openPlugins()`: the plugins with an `open` method are called in
      stack order until one rejects; with no rejection, all of them are. */
  function OpenPlugins(n: Node, fails: set<nat>): (r: (seq<Inst>, bool))
    ensures |r.0| <= |Defining(n.stack, Opening)| && r.0 == Defining(n.stack, Opening)[..|r.0|]
    ensures fails == {} ==> r == (Defining(n.stack, Opening), true)
  {
    WalkComplete(n.stack, Opening, fails);
    Walk(n.stack, Opening, fails)
  }

  /** `node.closePlugins()`: the same walk over the `close` methods, in the same
      stack order. */
  function ClosePlugins(n: Node, fails: set<nat>): (r: (seq<Inst>, bool))
    ensures |r.0| <= |Defining(n.stack, Closing)| && r.0 == Defining(n.stack, Closing)[..|r.0|]
    ensures fails == {} ==> r == (Defining(n.stack, Closing), true)
  {
    WalkComplete(n.stack, Closing, fails);
    Walk(n.stack, Closing, fails)
  }

  /** `node.bind(obj, event, listener)`: recorded, and the listener attached. */
  function Bind(n: Node, t: Triple): (r: Node)
    ensures r.(bound := n.bound, listening := n.listening) == n
    ensures multiset(r.bound) == multiset(n.bound) + multiset{t} && t in r.listening
  {
    n.(bound := n.bound + [t], listening := n.listening + multiset{t})
  }

  /** `handleOpen` sets the start time to the current time. */
  function HandleOpen(n: Node, now: nat): (r: Node)
    ensures r.(startTime := n.startTime) == n
    ensures Uptime(r, now) == 0
  {
    n.(startTime := now)
  }

  /** `handleClose`: every bound listener removed, the record emptied and the
      start time reset to the sentinel. */
  function HandleClose(n: Node): (r: Node)
    ensures r.(listening := n.listening, bound := n.bound, startTime := n.startTime) == n
    ensures r.bound == [] && r.listening <= n.listening
    ensures forall now :: Uptime(r, now) == 0
  {
    n.(listening := n.listening - multiset(n.bound), bound := [], startTime := -1)
  }

  /** `node.uptime()` at time `now`. */
  function Uptime(n: Node, now: int): (r: int)
    ensures n.startTime != -1 ==> n.startTime + r == now
    ensures n.startTime == -1 ==> r == 0
  {
    if n.startTime == -1 then 0 else now - n.startTime
  }

  /** The index holds only instances on the stack, under non-empty ids that are
      not reserved. */
  predicate Valid(n: Node) {
    forall id :: id in n.plugins ==> id != [] && !Reserved(id) && n.plugins[id] in n.stack
  }

  /** `use` succeeds exactly when none of its assertions fires. */
  lemma UseAccepts(n: Node, p: Plugin)
    ensures Use(n, p).Ok? <==>
      && p.Plugin? && p.init.Some? && !n.loaded
      && p.init.value.open != NotFn && p.init.value.close != NotFn && p.id != IdOther
      && (IdOf(p.id).Some? ==> !Reserved(IdOf(p.id).value) && IdOf(p.id).value !in n.plugins)
  {
  }

  /** `use` keeps the index valid. */
  lemma UseValid(n: Node, p: Plugin)
    requires Valid(n) && Use(n, p).Ok?
    ensures Valid(Use(n, p).value.0)
  {
  }

  /** After `use`, the instance is found under its id by `has`, `get` and
      `require`, and every other name answers as before. */
  lemma UseThenGet(n: Node, p: Plugin, other: string)
    requires Use(n, p).Ok?
    ensures var (n', inst) := Use(n, p).value;
      && (IdOf(p.id).Some? ==>
            Has(n', IdOf(p.id).value) && Get(n', IdOf(p.id).value) == Ok(Some(inst))
            && Require(n', IdOf(p.id).value) == Ok(inst))
      && (IdOf(p.id) != Some(other) ==> Has(n', other) == Has(n, other) && Get(n', other) == Get(n, other))
  {
  }

  /** A second plugin with a taken id is refused, and so is one with a reserved id. */
  lemma DuplicateRefused(n: Node, p: Plugin, q: Plugin)
    requires Use(n, p).Ok? && IdOf(p.id).Some?
    requires q.Plugin? && q.init.Some? && q.init.value.open != NotFn && q.init.value.close != NotFn
    requires IdOf(q.id) == IdOf(p.id)
    ensures Use(Use(n, p).value.0, q) == Err(AlreadyAdded(IdOf(p.id).value))
  {
  }

  lemma ReservedRefused(n: Node, p: Plugin)
    requires p.Plugin? && IdOf(p.id).Some? && Reserved(IdOf(p.id).value)
    ensures Use(n, p).Err?
  {
  }

  /** In a valid node `has` is false for every built-in service, which only
      `get` reaches. */
  lemma ReservedNotIndexed(n: Node, name: string)
    requires Valid(n) && Reserved(name)
    ensures !Has(n, name)
    ensures Get(n, name).Ok? <==> name in n.services
  {
  }

  lemma {:induction false} LoadPluginsValid(n: Node, entries: seq<Entry>, loader: Option<string -> Plugin>)
    requires Valid(n) && LoadPlugins(n, entries, loader).Ok?
    ensures Valid(LoadPlugins(n, entries, loader).value)
    decreases |entries|
  {
    if entries != [] {
      var p := Resolve(entries[0], loader).value;
      UseValid(n, p);
      LoadPluginsValid(Use(n, p).value.0, entries[1..], loader);
    }
  }

  /** Loading the entries in two parts is loading them at once. */
  lemma {:induction false} LoadPluginsAppend(n: Node, a: seq<Entry>, b: seq<Entry>, loader: Option<string -> Plugin>)
    ensures LoadPlugins(n, a + b, loader) ==
      match LoadPlugins(n, a, loader)
      case Ok(m) => LoadPlugins(m, b, loader)
      case Err(e) => Err(e)
    decreases |a|
  {
    if a == [] {
      assert a + b == b;
    } else {
      assert (a + b)[0] == a[0] && (a + b)[1..] == a[1..] + b;
      var p := Resolve(a[0], loader);
      if p.Ok? && Use(n, p.value).Ok? {
        LoadPluginsAppend(Use(n, p.value).value.0, a[1..], b, loader);
      }
    }
  }

  /** Without a loader, any named entry makes the load fail. */
  lemma NamedNeedsLoader(n: Node, entries: seq<Entry>, i: nat)
    requires i < |entries| && entries[i].Named?
    ensures LoadPlugins(n, entries, None).Err?
  {
  }

  /** Ids of a successful load are distinct: two entries with one id cannot
      both be used. */
  lemma {:induction false} LoadedIdsIndexed(n: Node, entries: seq<Entry>, loader: Option<string -> Plugin>)
    requires LoadPlugins(n, entries, loader).Ok?
    ensures forall i :: 0 <= i < |entries| ==>
      var id := IdOf(Resolve(entries[i], loader).value.id);
      id.Some? ==> id.value !in n.plugins && id.value in LoadPlugins(n, entries, loader).value.plugins
    ensures forall i, j :: 0 <= i < j < |entries| ==>
      var id := IdOf(Resolve(entries[i], loader).value.id);
      id.Some? ==> IdOf(Resolve(entries[j], loader).value.id) != id
    decreases |entries|
  {
    if entries != [] {
      var p := Resolve(entries[0], loader).value;
      var n' := Use(n, p).value.0;
      LoadedIdsIndexed(n', entries[1..], loader);
      LoadKeepsIndex(n', entries[1..], loader);
      forall i | 1 <= i < |entries|
        ensures entries[i] == entries[1..][i - 1]
      {
      }
    }
  }

  /** Loading never drops an indexed id. */
  lemma {:induction false} LoadKeepsIndex(n: Node, entries: seq<Entry>, loader: Option<string -> Plugin>)
    requires LoadPlugins(n, entries, loader).Ok?
    ensures n.plugins.Keys <= LoadPlugins(n, entries, loader).value.plugins.Keys
    decreases |entries|
  {
    if entries != [] {
      var p := Resolve(entries[0], loader).value;
      LoadKeepsIndex(Use(n, p).value.0, entries[1..], loader);
    }
  }

  /** Only instances on the stack that define the method are called, only the
      last call may have failed, and the calls are the defining instances in
      stack order up to the first rejection: all of them when none rejects. */
  lemma {:induction false} WalkCalls(stack: seq<Inst>, ph: Phase, fails: set<nat>)
    ensures var r := Walk(stack, ph, fails);
      && (forall i :: 0 <= i < |r.0| ==> r.0[i] in stack && SlotOf(r.0[i], ph) != Missing)
      && (forall i :: 0 <= i < |r.0| - 1 ==> r.0[i].tag !in fails)
      && (r.1 ==> forall i :: 0 <= i < |r.0| ==> r.0[i].tag !in fails)
    ensures |Walk(stack, ph, fails).0| <= |Defining(stack, ph)|
    ensures Walk(stack, ph, fails).0 == Defining(stack, ph)[..|Walk(stack, ph, fails).0|]
    ensures Walk(stack, ph, fails).1 <==> forall i :: 0 <= i < |Defining(stack, ph)| ==> Defining(stack, ph)[i].tag !in fails
    ensures Walk(stack, ph, fails).1 ==> Walk(stack, ph, fails).0 == Defining(stack, ph)
  {
    WalkDefined(stack, ph, fails);
    WalkComplete(stack, ph, fails);
  }

  /** The calls are of defining instances on the stack, and only the last may
      have failed. */
  lemma {:induction false} WalkDefined(stack: seq<Inst>, ph: Phase, fails: set<nat>)
    ensures var r := Walk(stack, ph, fails);
      && (forall i :: 0 <= i < |r.0| ==> r.0[i] in stack && SlotOf(r.0[i], ph) != Missing)
      && (forall i :: 0 <= i < |r.0| - 1 ==> r.0[i].tag !in fails)
      && (r.1 ==> forall i :: 0 <= i < |r.0| ==> r.0[i].tag !in fails)
    decreases |stack|
  {
    if stack != [] {
      WalkDefined(stack[1..], ph, fails);
    }
  }

  /** The walk calls a prefix of the defining instances, and finishes exactly
      when none of them rejects, having then called them all. */
  lemma {:induction false} WalkComplete(stack: seq<Inst>, ph: Phase, fails: set<nat>)
    ensures |Walk(stack, ph, fails).0| <= |Defining(stack, ph)|
    ensures Walk(stack, ph, fails).0 == Defining(stack, ph)[..|Walk(stack, ph, fails).0|]
    ensures Walk(stack, ph, fails).1 <==> forall i :: 0 <= i < |Defining(stack, ph)| ==> Defining(stack, ph)[i].tag !in fails
    ensures Walk(stack, ph, fails).1 ==> Walk(stack, ph, fails).0 == Defining(stack, ph)
    decreases |stack|
  {
    if stack != [] {
      var rest := stack[1..];
      WalkComplete(rest, ph, fails);
      var d := Defining(stack, ph);
      var dr := Defining(rest, ph);
      var w := Walk(stack, ph, fails);
      var wr := Walk(rest, ph, fails);
      if SlotOf(stack[0], ph) == Missing {
        assert d == dr && w == wr;
      } else if stack[0].tag in fails {
        assert d == [stack[0]] + dr && w == ([stack[0]], false);
        assert d[0].tag in fails;
      } else {
        assert d == [stack[0]] + dr && w == ([stack[0]] + wr.0, wr.1);
        ConsPrefix(stack[0], wr.0, dr);
        assert forall i :: 1 <= i < |d| ==> d[i] == dr[i - 1];
      }
    }
  }

  lemma ConsPrefix<T>(x: T, a: seq<T>, b: seq<T>)
    requires |a| <= |b| && a == b[..|a|]
    ensures [x] + a == ([x] + b)[..|a| + 1]
  {
  }

  /** Walking a concatenation walks the first part, then, if it finished, the second. */
  lemma {:induction false} WalkAppend(a: seq<Inst>, b: seq<Inst>, ph: Phase, fails: set<nat>)
    ensures Walk(a, ph, fails).1 ==>
      Walk(a + b, ph, fails) == (Walk(a, ph, fails).0 + Walk(b, ph, fails).0, Walk(b, ph, fails).1)
    ensures !Walk(a, ph, fails).1 ==> Walk(a + b, ph, fails) == Walk(a, ph, fails)
    decreases |a|
  {
    if a == [] {
      assert a + b == b;
      assert Walk(a, ph, fails) == ([], true);
      assert [] + Walk(b, ph, fails).0 == Walk(b, ph, fails).0;
    } else {
      var ab := a + b;
      assert ab[0] == a[0] && ab[1..] == a[1..] + b;
      WalkAppend(a[1..], b, ph, fails);
      if SlotOf(a[0], ph) == Missing {
        assert Walk(ab, ph, fails) == Walk(a[1..] + b, ph, fails);
        assert Walk(a, ph, fails) == Walk(a[1..], ph, fails);
      } else if a[0].tag !in fails {
        var rest := Walk(a[1..], ph, fails);
        assert Walk(a, ph, fails) == ([a[0]] + rest.0, rest.1);
        var tail := Walk(a[1..] + b, ph, fails);
        assert Walk(ab, ph, fails) == ([a[0]] + tail.0, tail.1);
        if rest.1 {
          assert [a[0]] + (rest.0 + Walk(b, ph, fails).0) == ([a[0]] + rest.0) + Walk(b, ph, fails).0;
        }
      }
    }
  }

  /** A failing open or close ends the walk: no later instance is called. */
  lemma StopsAtFailure(a: seq<Inst>, x: Inst, b: seq<Inst>, ph: Phase, fails: set<nat>)
    requires Walk(a, ph, fails).1 && SlotOf(x, ph) != Missing && x.tag in fails
    ensures Walk(a + [x] + b, ph, fails) == (Walk(a, ph, fails).0 + [x], false)
  {
    WalkAppend(a, [x] + b, ph, fails);
    assert a + [x] + b == a + ([x] + b);
    assert ([x] + b)[0] == x;
  }

  /** When every plugin defines both methods and none fails, `openPlugins` and
      `closePlugins` call the whole stack in the same order: closing is not the
      reverse of opening. */
  lemma {:induction false} SameOrder(stack: seq<Inst>)
    requires forall i :: 0 <= i < |stack| ==> stack[i].open == Fn && stack[i].close == Fn
    ensures Walk(stack, Opening, {}) == (stack, true)
    ensures Walk(stack, Closing, {}) == (stack, true)
    decreases |stack|
  {
    if stack != [] {
      SameOrder(stack[1..]);
      assert [stack[0]] + stack[1..] == stack;
    }
  }

  /** Every bound listener is still attached. */
  predicate Attached(n: Node) {
    multiset(n.bound) <= n.listening
  }

  lemma BindAttached(n: Node, t: Triple)
    requires Attached(n)
    ensures Attached(Bind(n, t))
  {
    assert multiset(n.bound + [t]) == multiset(n.bound) + multiset{t};
  }

  /** `handleClose` detaches exactly the bound listeners: adding them back gives
      what the emitters held, and a listener bound before closing is gone after. */
  lemma CloseDetaches(n: Node)
    requires Attached(n)
    ensures HandleClose(n).listening + multiset(n.bound) == n.listening
    ensures HandleClose(n).bound == [] && Attached(HandleClose(n))
  {
  }

  /** Binding and then closing leaves the emitters as closing alone would. */
  lemma BindThenClose(n: Node, t: Triple)
    ensures HandleClose(Bind(n, t)) == HandleClose(n)
  {
    assert multiset(n.bound + [t]) == multiset(n.bound) + multiset{t};
    assert n.listening + multiset{t} - (multiset(n.bound) + multiset{t}) == n.listening - multiset(n.bound);
  }

  /** `handleClose` twice is `handleClose` once. */
  lemma CloseIdempotent(n: Node)
    ensures HandleClose(HandleClose(n)) == HandleClose(n)
  {
    assert multiset(HandleClose(n).bound) == multiset{};
  }

  /** Uptime is zero before opening and after closing, and the time since
      opening in between. */
  lemma UptimeCycle(n: Node, services: map<string, Inst>, t: nat, now: int)
    ensures Uptime(Initial(services), now) == 0
    ensures Uptime(HandleOpen(n, t), now) == now - t
    ensures Uptime(HandleClose(HandleOpen(n, t)), now) == 0
  {
  }
}
