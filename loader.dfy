/** The single-flight loader `initSqlJs`: the first call stores a promise in
    the slot `initSqlJsPromise` and configures the module object (an
    onAbort that rejects before handing over to the user's own, and a
    postRun hook that resolves); every later call returns that same
    promise, so the engine is instantiated at most once. The engine's
    start-up code is abstract: it either returns or throws with a message,
    and later calls the onAbort handler or the postRun hooks. */
module Loader {
  import opened Base

  /** How a promise has settled. */
  datatype Settlement = Pending | Fulfilled(value: ModuleConfig) | Rejected(message: string)

  /** A promise; its resolve and reject functions settle it once. */
  class Promise {
    var state: Settlement

    constructor ()
      ensures state == Pending
    {
      state := Pending;
    }

    /** The resolve function: only the first settlement counts. */
    method Resolve(m: ModuleConfig)
      modifies this
      ensures old(state).Pending? ==> state == Fulfilled(m)
      ensures !old(state).Pending? ==> state == old(state)
    {
      if state.Pending? {
        state := Fulfilled(m);
      }
    }

    /** The reject function with `new Error(message)`: only the first
        settlement counts. */
    method Reject(message: string)
      modifies this
      ensures old(state).Pending? ==> state == Rejected(message)
      ensures !old(state).Pending? ==> state == old(state)
    {
      if state.Pending? {
        state := Rejected(message);
      }
    }
  }

  /** A value stored under `onAbort`: a user function (known by an
      identity) or the loader's handler, which remembers the promise it
      rejects and whatever `onAbort` held before. */
  datatype AbortHandler = UserAbort(id: nat) | LoaderAbort(promise: Promise, original: Option<AbortHandler>)

  /** A function in the `postRun` list: a user function, or the loader's
      hook that resolves the promise with the module object. */
  datatype Hook = UserHook(id: nat) | ResolveHook(promise: Promise, target: ModuleConfig)

  /** A truthy `postRun`: an array of functions, or a single function. */
  datatype PostRun = HookList(hooks: seq<Hook>) | SingleHook(hook: Hook)

  /** The module configuration object, whose fields the loader overwrites.
      None stands for a missing (or falsy) field. */
  class ModuleConfig {
    var onAbort: Option<AbortHandler>
    var postRun: Option<PostRun>

    constructor (onAbort: Option<AbortHandler>, postRun: Option<PostRun>)
      ensures this.onAbort == onAbort && this.postRun == postRun
    {
      this.onAbort := onAbort;
      this.postRun := postRun;
    }
  }

  /** The argument of `initSqlJs`: absent, `null`, or an object. */
  datatype ConfigArg = Undefined | NullConfig | Given(config: ModuleConfig)

  /** What the handlers do that can be observed outside the promise. */
  datatype Effect = Rejecting(promise: Promise, message: string) | UserAbortCalled(id: nat, reason: string) | UserHookCalled(id: nat)

  /** The messages of the TypeErrors the executor throws (V8's wording). */
  const NullConfigError: string := "Cannot read properties of null (reading 'onAbort')"
  const PushError: string := "Module.postRun.push is not a function"

  /** The list `Module['postRun']` becomes: the user's list, or a new empty
      one when the field is falsy, with `hook` pushed at its end. A single
      function is truthy but has no `push`, so there is no list (the
      executor throws). */
  function WithHook(postRun: Option<PostRun>, hook: Hook): (r: Option<seq<Hook>>)
    ensures r.Some? <==> postRun.None? || postRun.value.HookList?
    ensures r.Some? ==> |r.value| >= 1 && r.value[|r.value| - 1] == hook
    ensures r.Some? && postRun.Some? ==> r.value[..|r.value| - 1] == postRun.value.hooks
    ensures r.Some? && postRun.None? ==> r.value == [hook]
  {
    match postRun
    case None => Some([hook])
    case Some(HookList(hs)) => Some(hs + [hook])
    case Some(SingleHook(_)) => None
  }

  /** The handler at the end of a chain of loader handlers. */
  function Innermost(h: AbortHandler): AbortHandler
  {
    match h
    case UserAbort(_) => h
    case LoaderAbort(_, original) => if original.Some? then Innermost(original.value) else h
  }

  /** The promises a chain of handlers rejects. */
  ghost function Promises(h: AbortHandler): set<Promise>
  {
    match h
    case UserAbort(_) => {}
    case LoaderAbort(p, original) => {p} + (if original.Some? then Promises(original.value) else {})
  }

  /** What calling handler `h` with `reason` does, in order: a loader
      handler rejects its promise with `reason` and then calls what it
      replaced, if anything. So every rejection comes before the one user
      function, which is called last and with the same reason. */
  function AbortEffects(h: AbortHandler, reason: string): (r: seq<Effect>)
    ensures |r| >= 1
    ensures h.LoaderAbort? ==> r[0] == Rejecting(h.promise, reason)
    ensures Innermost(h).UserAbort? ==> r[|r| - 1] == UserAbortCalled(Innermost(h).id, reason)
    ensures Innermost(h).LoaderAbort? ==> r[|r| - 1].Rejecting?
    ensures forall i :: 0 <= i < |r| - 1 ==> r[i].Rejecting? && r[i].message == reason
    ensures forall i :: 0 <= i < |r| && r[i].Rejecting? ==> r[i].promise in Promises(h)
  {
    match h
    case UserAbort(id) => [UserAbortCalled(id, reason)]
    case LoaderAbort(p, original) =>
      [Rejecting(p, reason)] + (if original.Some? then AbortEffects(original.value, reason) else [])
  }

  /** The process-wide state of the loader. `starts` counts how many times
      the promise executor ran, whether it then instantiated the engine or
      rejected first (a null config, a failed start-up). */
  class SqlJsLoader {
    var slot: Option<Promise>
    var log: seq<Effect>
    ghost var starts: nat

    /** The executor runs at most once, and exactly once once the slot is
        set: every later call returns the stored promise. */
    ghost predicate Valid()
      reads this
    {
      starts == if slot.None? then 0 else 1
    }

    constructor ()
      ensures Valid() && slot == None && log == []
    {
      slot := None;
      log := [];
      starts := 0;
    }

    /** `initSqlJs(moduleConfig)`. A stored promise is returned as it is.
        Otherwise a new promise is stored, and its executor configures the
        module object (`{}` when the argument is undefined); `startup` is
        the message of an exception thrown by the engine's start-up code,
        which rejects the promise. `m` is the configured module object. */
    method InitSqlJs(arg: ConfigArg, startup: Option<string>) returns (p: Promise, m: ModuleConfig?)
      requires Valid()
      modifies this, if arg.Given? then {arg.config} else {}
      ensures Valid() && log == old(log)
      ensures old(slot).Some? ==>
        p == old(slot).value && slot == old(slot) && m == null && (arg.Given? ==> unchanged(arg.config))
      ensures old(slot).None? ==> fresh(p) && slot == Some(p)
      ensures old(slot).None? && arg.NullConfig? ==> m == null && p.state == Rejected(NullConfigError)
      ensures old(slot).None? && arg.Undefined? ==>
        m != null && fresh(m) && m.onAbort == Some(LoaderAbort(p, None)) &&
        m.postRun == Some(HookList([ResolveHook(p, m)])) &&
        p.state == if startup.Some? then Rejected(startup.value) else Pending
      ensures old(slot).None? && arg.Given? ==>
        m == arg.config && m.onAbort == Some(LoaderAbort(p, old(m.onAbort))) &&
        match WithHook(old(m.postRun), ResolveHook(p, m))
        case Some(hooks) =>
          m.postRun == Some(HookList(hooks)) && p.state == if startup.Some? then Rejected(startup.value) else Pending
        case None => m.postRun == old(m.postRun) && p.state == Rejected(PushError)
    {
      if slot.Some? {
        return slot.value, null;
      }
      p := new Promise();
      slot := Some(p);
      starts := starts + 1;
      if arg.NullConfig? {
        p.Reject(NullConfigError);
        return p, null;
      }
      if arg.Given? {
        m := arg.config;
      } else {
        m := new ModuleConfig(None, None);
      }
      var original := m.onAbort;
      m.onAbort := Some(LoaderAbort(p, original));
      var hooks := WithHook(m.postRun, ResolveHook(p, m));
      if hooks.None? {
        p.Reject(PushError);
        return p, m;
      }
      m.postRun := Some(HookList(hooks.value));
      if startup.Some? {
        p.Reject(startup.value);
      }
    }

    /** The engine calls an onAbort handler with `reason`. Every promise in
        the chain that is still pending is rejected with `reason`. */
    method CallAbort(h: AbortHandler, reason: string)
      modifies this, Promises(h)
      ensures slot == old(slot) && starts == old(starts)
      ensures log == old(log) + AbortEffects(h, reason)
      ensures forall q :: q in Promises(h) && old(allocated(q)) ==>
        q.state == if old(q.state).Pending? then Rejected(reason) else old(q.state)
      decreases h
    {
      match h
      case UserAbort(id) =>
        log := log + [UserAbortCalled(id, reason)];
      case LoaderAbort(p, original) =>
        p.Reject(reason);
        log := log + [Rejecting(p, reason)];
        if original.Some? {
          ghost var inner := AbortEffects(original.value, reason);
          assert AbortEffects(h, reason) == [Rejecting(p, reason)] + inner;
          CallAbort(original.value, reason);
          AppendAssoc(old(log), [Rejecting(p, reason)], inner);
        } else {
          assert AbortEffects(h, reason) == [Rejecting(p, reason)];
        }
    }

    /** The engine runs one postRun function. */
    method RunHook(h: Hook)
      modifies this, if h.ResolveHook? then {h.promise} else {}
      ensures slot == old(slot) && starts == old(starts)
      ensures h.UserHook? ==> log == old(log) + [UserHookCalled(h.id)]
      ensures h.ResolveHook? ==> log == old(log)
      ensures h.ResolveHook? ==>
        h.promise.state == if old(h.promise.state).Pending? then Fulfilled(h.target) else old(h.promise.state)
    {
      match h
      case UserHook(id) =>
        log := log + [UserHookCalled(id)];
      case ResolveHook(p, target) =>
        p.Resolve(target);
    }

    /** Two calls in a row share one promise and one instantiation, whatever
        their arguments, and the second leaves its argument alone. */
    method InitTwice(first: ConfigArg, second: ConfigArg, startup: Option<string>)
      returns (p: Promise, q: Promise)
      requires Valid() && (first.Given? && second.Given? ==> first.config != second.config)
      modifies this, if first.Given? then {first.config} else {},
        if second.Given? then {second.config} else {}
      ensures Valid() && p == q && slot == Some(p) && starts == 1
      ensures second.Given? ==> second.config.onAbort == old(second.config.onAbort)
      ensures second.Given? ==> second.config.postRun == old(second.config.postRun)
    {
      var m;
      p, m := InitSqlJs(first, startup);
      q, m := InitSqlJs(second, startup);
    }

    /** A user onAbort survives the loader: after a first call with it, an
        abort rejects the promise with the reason and then calls the user's
        function with that reason. */
    method AbortAfterInit(config: ModuleConfig, user: nat, reason: string) returns (p: Promise)
      requires Valid() && slot.None? && config.onAbort == Some(UserAbort(user))
      modifies this, config
      ensures p.state == Rejected(reason) || p.state == Rejected(PushError)
      ensures config.postRun.None? || config.postRun.value.HookList? ==>
        p.state == Rejected(reason) && log == old(log) + [Rejecting(p, reason), UserAbortCalled(user, reason)]
    {
      var m;
      p, m := InitSqlJs(Given(config), None);
      var h := config.onAbort.value;
      assert h == LoaderAbort(p, Some(UserAbort(user)));
      assert Promises(h) == {p};
      assert AbortEffects(h, reason) == [Rejecting(p, reason), UserAbortCalled(user, reason)];
      CallAbort(h, reason);
    }
  }
}
