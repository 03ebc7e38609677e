/** The Database and Statement objects that sql.js defines in
    `onRuntimeInitialized`, seen through their lifecycle: a Database holds
    an engine handle (null once closed) and the map `fb` of the statements
    prepared through it; a Statement holds its statement pointer (0 once
    freed).

    The compiled SQLite engine and the file system calls these objects make
    are foreign code. They are an oracle here: every call that changes the
    engine's or the file system's state is appended to a trace, and every
    answer the engine gives is a function of the trace before the call. */
module SqlDb {
  import opened Base

  /** A value crossing the JavaScript/SQLite boundary. */
  datatype Value = NullValue | Number(n: int) | Text(s: JsString) | Blob(bytes: seq<Byte>)

  type Row = seq<Value>

  /** A bind argument: a value `vb` knows how to bind, or one it refuses
      (undefined, a function, an object without `length`), kept as the
      text it renders to. */
  datatype Param = Bindable(value: Value) | Unbindable(shown: string)

  /** Bind parameters: an array binds by position, an object by name (its
      keys in `Object.keys` order); anything else (a number, a string, a
      boolean) binds nothing, and `truthy` is how `if (params)` reads it. */
  datatype Params = Positional(values: seq<Param>) | Named(entries: seq<(JsString, Param)>) | Scalar(truthy: bool)

  /** The object getAsObject builds for one row. */
  type RowObject = map<JsString, Option<Value>>

  /** One `{columns, values}` entry of `exec`'s result. */
  datatype ResultSet = ResultSet(columns: seq<JsString>, values: seq<Row>)

  /** A thrown value: the bindings throw bare strings in some places and
      Error objects in others, and `throw db.handleError(0)` throws null. */
  datatype Thrown = ThrownString(text: string) | ThrownError(message: string) | ThrownNull

  /** Error texts of the bindings. */
  const StatementClosed: string := "Statement closed"
  const DatabaseClosed: string := "Database closed"
  const NothingToPrepare: string := "Nothing to prepare"
  /** The message of every FS.ErrnoError. */
  const FsError: string := "FS error"

  /** SQLite's result codes for a step that produced a row and one that finished. */
  const SqliteRow: int := 100
  const SqliteDone: int := 101

  /** The data given to new Database when it is not null or undefined: a
      falsy value (such as 0 or "") only creates the file, anything else is
      written into it as bytes. */
  datatype Image = Blank | Bytes(bytes: seq<Byte>)

  /** The foreign calls that change state. Handles and statement pointers are
      numbers; a null handle is passed as 0. */
  datatype Call =
    | CreateFile(filename: JsString)
    | WriteImage(filename: JsString, bytes: seq<Byte>)
    | Open(filename: JsString)
    | RegisterExtensions(handle: nat)
    | CloseDb(handle: nat)
    | RunScript(handle: nat, sql: JsString)
    | PrepareV2(handle: nat, sql: JsString)
    | BindValue(stmt: nat, index: nat, value: Value)
    | ClearBindings(stmt: nat)
    | ResetStmt(stmt: nat)
    | StepStmt(stmt: nat)
    | Finalize(stmt: nat)
    | RemoveFile(path: JsString)

  type Trace = seq<Call>

  /** The engine's answers, each a function of the trace before the call.
      `consumed` is how many code units of the SQL text a prepare used up;
      `rowsLeft` bounds how many more rows a statement can produce. */
  datatype Oracle = Oracle(
    code: (Trace, Call) -> int,
    handle: (Trace, JsString) -> nat,
    prepared: (Trace, nat, JsString) -> nat,
    consumed: (Trace, nat, JsString) -> nat,
    paramIndex: (Trace, nat, JsString) -> nat,
    columnNames: (Trace, nat) -> seq<JsString>,
    rowValues: (Trace, nat) -> Row,
    errmsg: (Trace, nat) -> string,
    fileBytes: (Trace, JsString) -> Option<seq<Byte>>,
    rowsLeft: (Trace, nat) -> nat)

  /** What the bindings rely on SQLite for: a prepare of non-empty text moves
      past at least one unit, and a statement yields finitely many rows. */
  ghost predicate WellBehaved(o: Oracle) {
    (forall t, h, s :: 0 < |s| ==> 0 < o.consumed(t, h, s)) &&
    (forall t, p :: o.code(t, StepStmt(p)) == SqliteRow ==> o.rowsLeft(t + [StepStmt(p)], p) < o.rowsLeft(t, p))
  }

  /** The engine together with the calls made to it so far. */
  class Engine {
    const oracle: Oracle
    var trace: Trace

    constructor (oracle: Oracle)
      ensures this.oracle == oracle && trace == []
    {
      this.oracle := oracle;
      trace := [];
    }

    /** Makes one call and answers its result code. */
    method Invoke(c: Call) returns (rc: int)
      modifies this
      ensures trace == old(trace) + [c]
      ensures rc == oracle.code(old(trace), c)
    {
      rc := oracle.code(trace, c);
      trace := trace + [c];
    }
  }

  // ----- the statements freed by Database.close and Database.export -----

  /** `m` is the smallest element of `s`. */
  ghost predicate IsLeast(m: nat, s: set<nat>)
  {
    m in s && forall k :: k in s ==> m <= k
  }

  lemma {:induction false} HasLeast(s: set<nat>)
    requires s != {}
    ensures exists m :: IsLeast(m, s)
    decreases s
  {
    var x :| x in s;
    var rest := s - {x};
    if rest == {} {
      forall k | k in s
        ensures k == x
      {
        assert k == x || k in rest;
      }
      assert IsLeast(x, s);
    } else {
      HasLeast(rest);
      var m :| IsLeast(m, rest);
      var least := if x < m then x else m;
      forall k | k in s
        ensures least <= k
      {
        if k != x {
          assert k in rest;
        }
      }
      assert IsLeast(least, s);
    }
  }

  ghost function Least(s: set<nat>): (m: nat)
    requires s != {}
    ensures m in s && forall k :: k in s ==> m <= k
  {
    HasLeast(s);
    var m :| IsLeast(m, s); m
  }

  /** The keys of a statement map in the order `Object.values` visits them:
      integer-like keys ascending. */
  ghost function Ascending(s: set<nat>): seq<nat>
    decreases s
  {
    if s == {} then [] else [Least(s)] + Ascending(s - {Least(s)})
  }

  /** The visiting order lists every key once. */
  lemma {:induction false} AscendingMembers(s: set<nat>)
    ensures |Ascending(s)| == |s|
    ensures forall i :: 0 <= i < |Ascending(s)| ==> Ascending(s)[i] in s
    ensures forall k :: k in s ==> k in Ascending(s)
    decreases s
  {
    if s != {} {
      var m := Least(s);
      AscendingMembers(s - {m});
      var a := Ascending(s);
      assert a == [m] + Ascending(s - {m});
      forall k | k in s
        ensures k in a
      {
        if k != m {
          assert k in Ascending(s - {m});
        }
      }
    }
  }

  /** The visiting order is strictly increasing. */
  lemma {:induction false} AscendingSorted(s: set<nat>)
    ensures forall i, j :: 0 <= i < j < |Ascending(s)| ==> Ascending(s)[i] < Ascending(s)[j]
    decreases s
  {
    if s != {} {
      var m := Least(s);
      var rest := Ascending(s - {m});
      AscendingSorted(s - {m});
      AscendingMembers(s - {m});
      var a := Ascending(s);
      assert a == [m] + rest;
      forall i, j | 0 <= i < j < |a|
        ensures a[i] < a[j]
      {
        assert a[j] == rest[j - 1] && rest[j - 1] in s - {m};
        if i > 0 {
          assert a[i] == rest[i - 1];
        }
      }
    }
  }

  /** The finalize calls that freeing statements with these pointers makes. */
  function Finalizes(ps: seq<nat>): (t: Trace)
    ensures |t| == |ps|
    ensures forall i :: 0 <= i < |ps| ==> t[i] == Finalize(ps[i])
  {
    if ps == [] then [] else [Finalize(ps[0])] + Finalizes(ps[1..])
  }

  /** Freeing the least pointer first leaves the rest to finalize. */
  lemma FinalizeFirst(t: Trace, keys: set<nat>)
    requires keys != {}
    ensures t + Finalizes(Ascending(keys)) == (t + [Finalize(Least(keys))]) + Finalizes(Ascending(keys - {Least(keys)}))
  {
    var m := Least(keys);
    var rest := Ascending(keys - {m});
    assert Ascending(keys) == [m] + rest;
    assert Finalizes([m] + rest) == [Finalize(m)] + Finalizes(rest) by {
      assert ([m] + rest)[1..] == rest;
    }
  }

  /** The value at column `i`, or `undefined` past the row's end. */
  function Cell(values: Row, i: nat): Option<Value> {
    if i < |values| then Some(values[i]) else None
  }

  /** Text as UTF-16 units, for names written as literals (every character
      used here is in the Basic Multilingual Plane). */
  function Units(s: string): JsString {
    seq(|s|, i requires 0 <= i < |s| => if s[i] as int < 0x1_0000 then s[i] as int else 0xFFFD)
  }

  /** The name of the accessor every plain object inherits from
      `Object.prototype`: writing it sets the prototype instead of a key. */
  const ProtoName: JsString := Units("__proto__")

  /** Names a `Uint8Array` prototype defines without a way to write them:
      the `%TypedArray%.prototype` getters and `BYTES_PER_ELEMENT`. */
  const TypedArrayFixed: set<JsString> :=
    {Units("buffer"), Units("byteLength"), Units("byteOffset"), Units("length"), Units("BYTES_PER_ELEMENT")}

  /** What an object built by assignment inherits from: `Object.prototype`,
      nothing (after `__proto__ = null`), or a blob's `Uint8Array`. */
  datatype Proto = PlainProto | NullProto | BlobProto

  /** An object under construction: its own keys and its prototype. */
  datatype Building = Building(own: RowObject, proto: Proto)

  /** `q[x] = v` in non-strict code on an object `q`. While `__proto__` is
      inherited, writing it sets the prototype to a null or an object (a
      blob) and ignores anything else, and makes no key; a name the
      prototype holds without a setter is silently not written; any other
      name becomes (or updates) an own key. */
  function Assign(q: Building, x: JsString, v: Option<Value>): Building
  {
    if x == ProtoName && !q.proto.NullProto? then
      if v == Some(NullValue) then Building(q.own, NullProto)
      else if v.Some? && v.value.Blob? then Building(q.own, BlobProto)
      else q
    else if q.proto.BlobProto? && x in TypedArrayFixed then q
    else Building(q.own[x := v], q.proto)
  }

  /** getAsObject's loop: from `{}`, each column name in order is assigned
      its column's value. */
  function Build(names: seq<JsString>, values: Row): Building
  {
    if names == [] then Building(map[], PlainProto)
    else Assign(Build(names[..|names| - 1], values), names[|names| - 1], Cell(values, |names| - 1))
  }

  /** getAsObject's object: its own keys, which are what `postMessage`
      carries. */
  function AsObject(names: seq<JsString>, values: Row): RowObject
  {
    Build(names, values).own
  }

  /** Every key is a column name, and every column name that is neither
      `__proto__` nor a name a blob prototype fixes is a key. */
  lemma {:induction false} AsObjectKeys(names: seq<JsString>, values: Row)
    ensures AsObject(names, values).Keys <= set i | 0 <= i < |names| :: names[i]
    ensures forall i :: 0 <= i < |names| && names[i] != ProtoName && names[i] !in TypedArrayFixed ==>
      names[i] in AsObject(names, values)
  {
    if names != [] {
      var n := |names| - 1;
      var front := names[..n];
      AsObjectKeys(front, values);
      forall x | x in AsObject(names, values).Keys
        ensures exists i :: 0 <= i < |names| && names[i] == x
      {
        if x != names[n] {
          var i :| 0 <= i < |front| && front[i] == x;
          assert names[i] == x;
        }
      }
      forall i | 0 <= i < |names| && names[i] != ProtoName && names[i] !in TypedArrayFixed
        ensures names[i] in AsObject(names, values)
      {
        if i < n {
          assert front[i] == names[i];
        }
      }
    }
  }

  /** A `__proto__` column whose value is not a null or a blob only ever
      meets the inherited setter: the prototype stays `Object.prototype`. */
  ghost predicate KeepsPlain(names: seq<JsString>, values: Row)
  {
    forall i :: 0 <= i < |names| && names[i] == ProtoName ==>
      Cell(values, i) != Some(NullValue) && !(Cell(values, i).Some? && Cell(values, i).value.Blob?)
  }

  /** While the prototype stays plain, the keys are exactly the column names
      other than `__proto__`. */
  lemma {:induction false} PlainKeys(names: seq<JsString>, values: Row)
    requires KeepsPlain(names, values)
    ensures Build(names, values).proto == PlainProto
    ensures AsObject(names, values).Keys == set i | 0 <= i < |names| && names[i] != ProtoName :: names[i]
  {
    if names != [] {
      var n := |names| - 1;
      var front := names[..n];
      assert KeepsPlain(front, values) by {
        forall i | 0 <= i < |front| && front[i] == ProtoName
          ensures Cell(values, i) != Some(NullValue) && !(Cell(values, i).Some? && Cell(values, i).value.Blob?)
        {
          assert names[i] == front[i];
        }
      }
      PlainKeys(front, values);
      forall x | x in AsObject(names, values).Keys
        ensures exists i :: 0 <= i < |names| && names[i] != ProtoName && names[i] == x
      {
        if x != names[n] {
          var i :| 0 <= i < |front| && front[i] != ProtoName && front[i] == x;
          assert names[i] == x;
        }
      }
      forall i | 0 <= i < |names| && names[i] != ProtoName
        ensures names[i] in AsObject(names, values)
      {
        if i < n {
          assert front[i] == names[i];
        }
      }
    }
  }

  /** After a null `__proto__` the object inherits nothing, so a later
      `__proto__` column becomes an own key like any other name. */
  lemma NullProtoThenKey(v: Value)
    ensures AsObject([ProtoName, ProtoName], [NullValue, v]) == map[ProtoName := Some(v)]
  {
    var names: seq<JsString> := [ProtoName, ProtoName];
    assert names[..1] == [ProtoName];
    assert [ProtoName][..0] == [];
    assert Build([ProtoName], [NullValue, v]) == Building(map[], NullProto);
    assert Build(names, [NullValue, v]) == Assign(Building(map[], NullProto), ProtoName, Some(v));
  }

  /** `SELECT 1 AS "__proto__"` gives a row object with no key. */
  lemma ProtoColumnNoKey()
    ensures AsObject([ProtoName], [Number(1)]) == map[]
  {
    assert [ProtoName][..0] == [];
    assert Build([ProtoName], [Number(1)]) == Assign(Building(map[], PlainProto), ProtoName, Some(Number(1)));
  }

  /** A name keeps the value of its last column. */
  lemma {:induction false} AsObjectLast(names: seq<JsString>, values: Row, i: nat)
    requires i < |names| && names[i] != ProtoName && names[i] !in TypedArrayFixed
    requires forall j :: i < j < |names| ==> names[j] != names[i]
    ensures names[i] in AsObject(names, values)
    ensures AsObject(names, values)[names[i]] == Cell(values, i)
  {
    var n := |names| - 1;
    if i < n {
      var front := names[..n];
      assert front[i] == names[i];
      AsObjectLast(front, values, i);
    }
  }

  // ----- what each binding does, as a function of the trace before it -----
  // `p` is a statement pointer and `h` the database handle as the engine
  // receives it (the one `errmsg` is asked about).

  /** The bindings accept a bind call: a null is bound without looking at
      its code, any other value needs code 0. */
  predicate Accepted(o: Oracle, t: Trace, c: Call)
  {
    (c.BindValue? && c.value.NullValue?) || o.code(t, c) == 0
  }

  /** The text `vb` throws for a value it cannot bind. */
  function UnknownType(shown: string): string {
    "Wrong API use : tried to bind a value of an unknown type (" + shown + ")."
  }

  /** vb at `index`: a refused value throws before any call; otherwise one
      bind call, checked through handleError. */
  function BindOne(o: Oracle, t: Trace, p: nat, h: nat, v: Param, index: nat): (Trace, Result<(), Thrown>)
  {
    if v.Unbindable? then (t, Err(ThrownString(UnknownType(v.shown))))
    else
      var c := BindValue(p, index, v.value);
      (t + [c], if Accepted(o, t, c) then Ok(()) else Err(ThrownError(o.errmsg(t + [c], h))))
  }

  /** Eb from position `at`: vb on each value in turn, stopping at the
      first throw. */
  function PositionalOf(o: Oracle, t: Trace, p: nat, h: nat, vs: seq<Param>, at: nat): (Trace, Result<bool, Thrown>)
    decreases |vs|
  {
    if vs == [] then (t, Ok(true))
    else
      var (t1, b) := BindOne(o, t, p, h, vs[0], at);
      if b.Err? then (t1, Err(b.error)) else PositionalOf(o, t1, p, h, vs[1..], at + 1)
  }

  /** The bind calls an array makes when every one is accepted: one per
      value at positions at, at+1, …, up to the first value it refuses. */
  function PositionalCalls(p: nat, vs: seq<Param>, at: nat): (t: Trace)
    ensures |t| <= |vs|
    decreases |vs|
  {
    if vs == [] || vs[0].Unbindable? then [] else [BindValue(p, at, vs[0].value)] + PositionalCalls(p, vs[1..], at + 1)
  }

  /** Those calls bind the leading bindable values, the i-th at position
      at + i, and stop at the first value that cannot be bound. */
  lemma {:induction false} PositionalCallsShape(p: nat, vs: seq<Param>, at: nat)
    ensures var t := PositionalCalls(p, vs, at);
      (forall i :: 0 <= i < |t| ==> vs[i].Bindable? && t[i] == BindValue(p, at + i, vs[i].value)) &&
      (|t| < |vs| ==> vs[|t|].Unbindable?)
    decreases |vs|
  {
    if vs != [] && vs[0].Bindable? {
      var tail := PositionalCalls(p, vs[1..], at + 1);
      PositionalCallsShape(p, vs[1..], at + 1);
      var t := PositionalCalls(p, vs, at);
      assert t == [BindValue(p, at, vs[0].value)] + tail;
      forall i | 0 <= i < |t|
        ensures vs[i].Bindable? && t[i] == BindValue(p, at + i, vs[i].value)
      {
        if i > 0 {
          assert t[i] == tail[i - 1] && vs[i] == vs[1..][i - 1];
        }
      }
      if |t| < |vs| {
        assert vs[|t|] == vs[1..][|tail|];
      }
    }
  }

  /** How many of `calls`, made one after another from `t`, the bindings
      accept before the first refusal. */
  function AcceptedRun(o: Oracle, t: Trace, calls: Trace): nat
    decreases |calls|
  {
    if calls == [] || !Accepted(o, t, calls[0]) then 0
    else 1 + AcceptedRun(o, t + [calls[0]], calls[1..])
  }

  /** The run is a count of accepted calls: the first k are all accepted,
      each on the trace the calls before it left, and the next one is not. */
  lemma {:induction false} AcceptedRunMeaning(o: Oracle, t: Trace, calls: Trace)
    ensures var k := AcceptedRun(o, t, calls);
      k <= |calls| &&
      (forall i :: 0 <= i < k ==> Accepted(o, t + calls[..i], calls[i])) &&
      (k < |calls| ==> !Accepted(o, t + calls[..k], calls[k]))
    decreases |calls|
  {
    if calls != [] {
      assert t + calls[..0] == t;
      if Accepted(o, t, calls[0]) {
        var t1 := t + [calls[0]];
        var tail := calls[1..];
        AcceptedRunMeaning(o, t1, tail);
        var k := AcceptedRun(o, t, calls);
        forall i | 1 <= i <= |calls|
          ensures t + calls[..i] == t1 + tail[..i - 1]
        {
          assert calls[..i] == [calls[0]] + tail[..i - 1];
        }
        forall i | 0 <= i < k
          ensures Accepted(o, t + calls[..i], calls[i])
        {
          if i > 0 {
            assert calls[i] == tail[i - 1];
            assert Accepted(o, t1 + tail[..i - 1], tail[i - 1]);
            assert t + calls[..i] == t1 + tail[..i - 1];
          } else {
            assert t + calls[..0] == t;
          }
        }
        if k < |calls| {
          assert calls[k] == tail[k - 1];
          assert !Accepted(o, t1 + tail[..k - 1], tail[k - 1]);
          assert t + calls[..k] == t1 + tail[..k - 1];
        }
      }
    }
  }

  /** Binding an array from `at`, call by call, with k the accepted run of
      PositionalCalls: Ok exactly when every value was bound; when every
      call made was accepted, the calls made are all of them and a failure
      is the refused value's type error; otherwise the refused call is the
      last one made and its error is the one thrown. */
  ghost predicate BindsInOrder(o: Oracle, t: Trace, p: nat, h: nat, vs: seq<Param>, at: nat)
  {
    BindsAll(o, t, p, h, vs, at) && BindsUpTo(o, t, p, h, vs, at)
  }

  /** The first half of BindsInOrder: Ok exactly when every value was bound. */
  ghost predicate BindsAll(o: Oracle, t: Trace, p: nat, h: nat, vs: seq<Param>, at: nat)
  {
    var r := PositionalOf(o, t, p, h, vs, at).1;
    (r.Ok? <==> AcceptedRun(o, t, PositionalCalls(p, vs, at)) == |vs|) && (r.Ok? ==> r.value)
  }

  /** The second half of BindsInOrder: the calls made and the error thrown. */
  ghost predicate BindsUpTo(o: Oracle, t: Trace, p: nat, h: nat, vs: seq<Param>, at: nat)
  {
    BindsWhenAccepted(o, t, p, h, vs, at) && BindsWhenRefused(o, t, p, h, vs, at)
  }

  /** When every call made was accepted, those are all the calls, and a
      failure is the type error of the value that could not be bound. */
  ghost predicate BindsWhenAccepted(o: Oracle, t: Trace, p: nat, h: nat, vs: seq<Param>, at: nat)
  {
    var calls := PositionalCalls(p, vs, at);
    var e := PositionalOf(o, t, p, h, vs, at);
    AcceptedRun(o, t, calls) == |calls| ==>
      e.0 == t + calls &&
      (e.1.Err? ==> |calls| < |vs| && vs[|calls|].Unbindable? && e.1 == Err(ThrownString(UnknownType(vs[|calls|].shown))))
  }

  /** When a call was refused, it is the last call made, and its errmsg is thrown. */
  ghost predicate BindsWhenRefused(o: Oracle, t: Trace, p: nat, h: nat, vs: seq<Param>, at: nat)
  {
    var calls := PositionalCalls(p, vs, at);
    var k := AcceptedRun(o, t, calls);
    var e := PositionalOf(o, t, p, h, vs, at);
    k < |calls| ==> e.0 == t + calls[..k + 1] && e.1 == Err(ThrownError(o.errmsg(e.0, h)))
  }

  /** Eb binds in order, for every array and every trace. */
  lemma {:induction false} PositionalOfCalls(o: Oracle, t: Trace, p: nat, h: nat, vs: seq<Param>, at: nat)
    ensures BindsInOrder(o, t, p, h, vs, at)
    decreases |vs|
  {
    if vs != [] && vs[0].Bindable? {
      var c := BindValue(p, at, vs[0].value);
      if Accepted(o, t, c) {
        PositionalOfCalls(o, t + [c], p, h, vs[1..], at + 1);
        PositionalOfAccepted(o, t, p, h, vs, at);
      } else {
        var calls := PositionalCalls(p, vs, at);
        assert calls == [c] + PositionalCalls(p, vs[1..], at + 1);
        assert PositionalOf(o, t, p, h, vs, at) == (t + [c], Err(ThrownError(o.errmsg(t + [c], h))));
        assert AcceptedRun(o, t, calls) == 0;
        assert calls[..1] == [c];
      }
    }
  }

  /** The step of PositionalOfCalls where the first value is bound and
      accepted: the rest of the array binds in order after it. */
  lemma PositionalOfAccepted(o: Oracle, t: Trace, p: nat, h: nat, vs: seq<Param>, at: nat)
    requires vs != [] && vs[0].Bindable? && Accepted(o, t, BindValue(p, at, vs[0].value))
    requires BindsInOrder(o, t + [BindValue(p, at, vs[0].value)], p, h, vs[1..], at + 1)
    ensures BindsInOrder(o, t, p, h, vs, at)
  {
    PositionalAllAccepted(o, t, p, h, vs, at);
    PositionalUpToAccepted(o, t, p, h, vs, at);
  }

  /** How an accepted first call relates the binding of vs to that of its tail. */
  lemma PositionalAcceptedStep(o: Oracle, t: Trace, p: nat, h: nat, vs: seq<Param>, at: nat)
    requires vs != [] && vs[0].Bindable? && Accepted(o, t, BindValue(p, at, vs[0].value))
    ensures var c := BindValue(p, at, vs[0].value);
      var tail := PositionalCalls(p, vs[1..], at + 1);
      PositionalCalls(p, vs, at) == [c] + tail &&
      PositionalOf(o, t, p, h, vs, at) == PositionalOf(o, t + [c], p, h, vs[1..], at + 1) &&
      AcceptedRun(o, t, PositionalCalls(p, vs, at)) == AcceptedRun(o, t + [c], tail) + 1
  {
    var c := BindValue(p, at, vs[0].value);
    var calls := PositionalCalls(p, vs, at);
    assert calls == [c] + PositionalCalls(p, vs[1..], at + 1);
    assert calls[1..] == PositionalCalls(p, vs[1..], at + 1);
  }

  lemma PositionalAllAccepted(o: Oracle, t: Trace, p: nat, h: nat, vs: seq<Param>, at: nat)
    requires vs != [] && vs[0].Bindable? && Accepted(o, t, BindValue(p, at, vs[0].value))
    requires BindsAll(o, t + [BindValue(p, at, vs[0].value)], p, h, vs[1..], at + 1)
    ensures BindsAll(o, t, p, h, vs, at)
  {
    PositionalAcceptedStep(o, t, p, h, vs, at);
  }

  lemma PositionalUpToAccepted(o: Oracle, t: Trace, p: nat, h: nat, vs: seq<Param>, at: nat)
    requires vs != [] && vs[0].Bindable? && Accepted(o, t, BindValue(p, at, vs[0].value))
    requires BindsUpTo(o, t + [BindValue(p, at, vs[0].value)], p, h, vs[1..], at + 1)
    ensures BindsUpTo(o, t, p, h, vs, at)
  {
    PositionalAcceptedStep(o, t, p, h, vs, at);
    WhenAcceptedStep(o, t, p, h, vs, at);
    WhenRefusedStep(o, t, p, h, vs, at);
  }

  lemma WhenAcceptedStep(o: Oracle, t: Trace, p: nat, h: nat, vs: seq<Param>, at: nat)
    requires vs != [] && vs[0].Bindable? && Accepted(o, t, BindValue(p, at, vs[0].value))
    requires BindsWhenAccepted(o, t + [BindValue(p, at, vs[0].value)], p, h, vs[1..], at + 1)
    ensures BindsWhenAccepted(o, t, p, h, vs, at)
  {
    var c := BindValue(p, at, vs[0].value);
    var calls := PositionalCalls(p, vs, at);
    var tail := PositionalCalls(p, vs[1..], at + 1);
    PositionalAcceptedStep(o, t, p, h, vs, at);
    assert t + calls == t + [c] + tail;
    if |tail| < |vs[1..]| {
      assert vs[|calls|] == vs[1..][|tail|];
    }
  }

  lemma WhenRefusedStep(o: Oracle, t: Trace, p: nat, h: nat, vs: seq<Param>, at: nat)
    requires vs != [] && vs[0].Bindable? && Accepted(o, t, BindValue(p, at, vs[0].value))
    requires BindsWhenRefused(o, t + [BindValue(p, at, vs[0].value)], p, h, vs[1..], at + 1)
    ensures BindsWhenRefused(o, t, p, h, vs, at)
  {
    var c := BindValue(p, at, vs[0].value);
    var calls := PositionalCalls(p, vs, at);
    var tail := PositionalCalls(p, vs[1..], at + 1);
    PositionalAcceptedStep(o, t, p, h, vs, at);
    var k := AcceptedRun(o, t + [c], tail);
    if k < |tail| {
      assert calls[..k + 2] == [c] + tail[..k + 1];
      AppendAssoc(t, [c], tail[..k + 1]);
    } else {
      assert |calls| <= k + 1;
    }
  }

  /** Fb: the entries in order, each bound at the index the statement gives
      its name; a name it does not have (index 0) is skipped. */
  function NamedOf(o: Oracle, t: Trace, p: nat, h: nat, es: seq<(JsString, Param)>): (Trace, Result<bool, Thrown>)
    decreases |es|
  {
    if es == [] then (t, Ok(true))
    else
      var index := o.paramIndex(t, p, es[0].0);
      if index == 0 then NamedOf(o, t, p, h, es[1..])
      else
        var (t1, b) := BindOne(o, t, p, h, es[0].1, index);
        if b.Err? then (t1, Err(b.error)) else NamedOf(o, t1, p, h, es[1..])
  }

  /** Binding by name makes only bind calls on this statement, at nonzero
      indexes, each with the value of one of the entries, at most one per
      entry; and a result Ok is true. */
  lemma {:induction false} NamedOfCalls(o: Oracle, t: Trace, p: nat, h: nat, es: seq<(JsString, Param)>)
    ensures var (t', r) := NamedOf(o, t, p, h, es);
      t <= t' && |t'| <= |t| + |es| && (r.Ok? ==> r.value) &&
      forall i :: |t| <= i < |t'| ==>
        t'[i].BindValue? && t'[i].stmt == p && t'[i].index != 0 &&
        exists j :: 0 <= j < |es| && es[j].1 == Bindable(t'[i].value)
    decreases |es|
  {
    if es != [] {
      var index := o.paramIndex(t, p, es[0].0);
      if index == 0 {
        NamedOfCalls(o, t, p, h, es[1..]);
        var (t', r) := NamedOf(o, t, p, h, es[1..]);
        forall i | |t| <= i < |t'|
          ensures exists j :: 0 <= j < |es| && es[j].1 == Bindable(t'[i].value)
        {
          var j :| 0 <= j < |es[1..]| && es[1..][j].1 == Bindable(t'[i].value);
          assert es[j + 1] == es[1..][j];
        }
      } else {
        var (t1, b) := BindOne(o, t, p, h, es[0].1, index);
        if b.Ok? {
          NamedOfCalls(o, t1, p, h, es[1..]);
          var (t', r) := NamedOf(o, t1, p, h, es[1..]);
          assert NamedOf(o, t, p, h, es) == (t', r);
          forall i | |t| <= i < |t'|
            ensures t'[i].BindValue? && t'[i].stmt == p && t'[i].index != 0
            ensures exists j :: 0 <= j < |es| && es[j].1 == Bindable(t'[i].value)
          {
            if i == |t| {
              assert t'[i] == t1[i];
            } else {
              var j :| 0 <= j < |es[1..]| && es[1..][j].1 == Bindable(t'[i].value);
              assert es[j + 1] == es[1..][j];
            }
          }
        }
      }
    }
  }

  /** An object none of whose names the statement has binds nothing. */
  lemma {:induction false} NamedOfUnknown(o: Oracle, t: Trace, p: nat, h: nat, es: seq<(JsString, Param)>)
    requires forall j :: 0 <= j < |es| ==> o.paramIndex(t, p, es[j].0) == 0
    ensures NamedOf(o, t, p, h, es) == (t, Ok(true))
    decreases |es|
  {
    if es != [] {
      forall j | 0 <= j < |es[1..]|
        ensures o.paramIndex(t, p, es[1..][j].0) == 0
      {
        assert es[1..][j] == es[j + 1];
      }
      NamedOfUnknown(o, t, p, h, es[1..]);
    }
  }

  /** reset: clear the bindings, and reset only when that returned 0; true
      exactly when both returned 0. */
  function ResetOf(o: Oracle, t: Trace, p: nat): (Trace, bool)
  {
    var c := ClearBindings(p);
    if o.code(t, c) != 0 then (t + [c], false)
    else (t + [c, ResetStmt(p)], o.code(t + [c], ResetStmt(p)) == 0)
  }

  /** bind: "Statement closed" once freed; otherwise reset (whatever it
      answers), then bind by position, by name, or nothing for a scalar. */
  function BindOf(o: Oracle, t: Trace, p: nat, h: nat, params: Params): (Trace, Result<bool, Thrown>)
  {
    if p == 0 then (t, Err(ThrownString(StatementClosed)))
    else
      var t1 := ResetOf(o, t, p).0;
      match params
      case Positional(vs) => PositionalOf(o, t1, p, h, vs, 1)
      case Named(es) => NamedOf(o, t1, p, h, es)
      case Scalar(_) => (t1, Ok(true))
  }

  /** Binding an array on a live statement: the clear (and reset) calls,
      then the positional bind calls; Ok exactly when all of them were made
      and accepted, and then they are all the calls. */
  lemma BindOfPositional(o: Oracle, t: Trace, p: nat, h: nat, vs: seq<Param>)
    requires p != 0
    ensures var t1 := ResetOf(o, t, p).0;
      var calls := PositionalCalls(p, vs, 1);
      var (t', r) := BindOf(o, t, p, h, Positional(vs));
      t + [ClearBindings(p)] <= t1 && |t1| <= |t| + 2 &&
      (r.Ok? <==> |calls| == |vs| && AcceptedRun(o, t1, calls) == |vs|) &&
      (r.Ok? ==> t' == t1 + calls)
  {
    var t1 := ResetOf(o, t, p).0;
    PositionalOfCalls(o, t1, p, h, vs, 1);
    AcceptedRunMeaning(o, t1, PositionalCalls(p, vs, 1));
  }

  /** prepare: a prepare call on the handle; the engine's error for a
      nonzero code; "Nothing to prepare" for a null statement; otherwise the
      statement, bound first when there are parameters. */
  function PrepareOf(o: Oracle, t: Trace, h: nat, sql: JsString, params: Option<Params>): (Trace, Result<nat, Thrown>)
  {
    var c := PrepareV2(h, sql);
    var t1 := t + [c];
    var p := o.prepared(t, h, sql);
    if o.code(t, c) != 0 then (t1, Err(ThrownError(o.errmsg(t1, h))))
    else if p == 0 then (t1, Err(ThrownString(NothingToPrepare)))
    else if params.None? then (t1, Ok(p))
    else
      var (t2, b) := BindOf(o, t1, p, h, params.value);
      (t2, if b.Err? then Err(b.error) else Ok(p))
  }

  /** prepare succeeds exactly when the engine returns 0 and a statement,
      and binding (if any) succeeds; the statement is the engine's pointer,
      and the calls start with the prepare. */
  lemma PrepareOfOk(o: Oracle, t: Trace, h: nat, sql: JsString, params: Option<Params>)
    ensures var (t', r) := PrepareOf(o, t, h, sql, params);
      var p := o.prepared(t, h, sql);
      t + [PrepareV2(h, sql)] <= t' &&
      (r.Ok? <==> o.code(t, PrepareV2(h, sql)) == 0 && p != 0 &&
                  (params.Some? ==> BindOf(o, t + [PrepareV2(h, sql)], p, h, params.value).1.Ok?)) &&
      (r.Ok? ==> r.value == p) &&
      (params.None? ==> t' == t + [PrepareV2(h, sql)])
  {
    var t1 := t + [PrepareV2(h, sql)];
    var p := o.prepared(t, h, sql);
    if o.code(t, PrepareV2(h, sql)) == 0 && p != 0 && params.Some? {
      BindOfGrows(o, t1, p, h, params.value);
    }
  }

  /** bind only appends calls. */
  lemma BindOfGrows(o: Oracle, t: Trace, p: nat, h: nat, params: Params)
    ensures t <= BindOf(o, t, p, h, params).0
  {
    if p != 0 {
      var t1 := ResetOf(o, t, p).0;
      match params
      case Positional(vs) => PositionalOfGrows(o, t1, p, h, vs, 1);
      case Named(es) => NamedOfCalls(o, t1, p, h, es);
      case Scalar(_) =>
    }
  }

  lemma {:induction false} PositionalOfGrows(o: Oracle, t: Trace, p: nat, h: nat, vs: seq<Param>, at: nat)
    ensures t <= PositionalOf(o, t, p, h, vs, at).0
    decreases |vs|
  {
    if vs != [] {
      var (t1, b) := BindOne(o, t, p, h, vs[0], at);
      if b.Ok? {
        PositionalOfGrows(o, t1, p, h, vs[1..], at + 1);
      }
    }
  }

  /** The error `throw this.db.handleError(rc)` raises for a step code. */
  function StepFailure(o: Oracle, t: Trace, h: nat, rc: int): Thrown
  {
    if rc == 0 then ThrownNull else ThrownError(o.errmsg(t, h))
  }

  /** Stepping a statement until it stops: the trace just after each step
      that produced a row, the trace at the end, and the last step's code. */
  datatype Stepping = Stepping(rowTraces: seq<Trace>, trace: Trace, last: int)

  /** `while (stmt.step())`: step until a code other than SQLITE_ROW. */
  function StepAll(o: Oracle, t: Trace, p: nat): Stepping
    requires WellBehaved(o)
    decreases o.rowsLeft(t, p)
  {
    var t1 := t + [StepStmt(p)];
    if o.code(t, StepStmt(p)) == SqliteRow then
      WellBehavedStep(o, t, p);
      var more := StepAll(o, t1, p);
      Stepping([t1] + more.rowTraces, more.trace, more.last)
    else Stepping([], t1, o.code(t, StepStmt(p)))
  }

  /** n step calls on one statement. */
  function Steps(p: nat, n: nat): (t: Trace)
    ensures |t| == n && forall i :: 0 <= i < n ==> t[i] == StepStmt(p)
  {
    seq(n, _ => StepStmt(p))
  }

  lemma StepsCons(t: Trace, p: nat, n: nat)
    ensures t + [StepStmt(p)] + Steps(p, n) == t + Steps(p, n + 1)
  {
    assert [StepStmt(p)] + Steps(p, n) == Steps(p, n + 1);
  }

  /** Stepping to the end makes only step calls, one per row and one more;
      the k-th row is there after k+1 steps, each answered SQLITE_ROW, and
      the last step answers the final code; there are no more rows than
      the engine allows. */
  lemma {:induction false} StepAllShape(o: Oracle, t: Trace, p: nat)
    requires WellBehaved(o)
    ensures var s := StepAll(o, t, p);
      s.last != SqliteRow && |s.rowTraces| <= o.rowsLeft(t, p) &&
      s.trace == t + Steps(p, |s.rowTraces| + 1) &&
      o.code(t + Steps(p, |s.rowTraces|), StepStmt(p)) == s.last &&
      forall i :: 0 <= i < |s.rowTraces| ==>
        s.rowTraces[i] == t + Steps(p, i + 1) && o.code(t + Steps(p, i), StepStmt(p)) == SqliteRow
    decreases o.rowsLeft(t, p)
  {
    var t1 := t + [StepStmt(p)];
    var s := StepAll(o, t, p);
    assert t + Steps(p, 0) == t;
    if o.code(t, StepStmt(p)) == SqliteRow {
      WellBehavedStep(o, t, p);
      var more := StepAll(o, t1, p);
      StepAllShape(o, t1, p);
      assert s.rowTraces == [t1] + more.rowTraces;
      StepsCons(t, p, |more.rowTraces| + 1);
      StepsCons(t, p, |more.rowTraces|);
      forall i | 0 <= i < |s.rowTraces|
        ensures s.rowTraces[i] == t + Steps(p, i + 1) && o.code(t + Steps(p, i), StepStmt(p)) == SqliteRow
      {
        StepsCons(t, p, i);
        if i > 0 {
          assert s.rowTraces[i] == more.rowTraces[i - 1];
          StepsCons(t, p, i - 1);
        } else {
          assert Steps(p, 1) == [StepStmt(p)];
        }
      }
    } else {
      assert Steps(p, 1) == [StepStmt(p)];
    }
  }

  /** The values `get()` reads at each of those traces. */
  function RowsAt(o: Oracle, p: nat, ts: seq<Trace>): seq<Row>
  {
    seq(|ts|, i requires 0 <= i < |ts| => o.rowValues(ts[i], p))
  }

  /** The objects getAsObject builds at each of those traces. */
  function ObjectsAt(o: Oracle, p: nat, ts: seq<Trace>): seq<RowObject>
  {
    seq(|ts|, i requires 0 <= i < |ts| => AsObject(o.columnNames(ts[i], p), o.rowValues(ts[i], p)))
  }

  /** exec's work on one statement before freeing it: bind the parameters,
      step through all rows, and make a `{columns, values}` entry, with the
      column names read at the first row, when a row came. */
  function CollectOf(o: Oracle, t: Trace, h: nat, p: nat, params: Option<Params>): (Trace, Result<Option<ResultSet>, Thrown>)
    requires WellBehaved(o)
  {
    var (t1, b) := if params.Some? then BindOf(o, t, p, h, params.value) else (t, Ok(true));
    if b.Err? then (t1, Err(b.error))
    else
      var s := StepAll(o, t1, p);
      if s.last != SqliteDone then (s.trace, Err(StepFailure(o, s.trace, h, s.last)))
      else if s.rowTraces == [] then (s.trace, Ok(None))
      else (s.trace, Ok(Some(ResultSet(o.columnNames(s.rowTraces[0], p), RowsAt(o, p, s.rowTraces)))))
  }

  /** The loop of exec from `rest` on, with `acc` collected so far and
      `wrapped` telling whether a statement object was made (exec's catch
      frees it again, finalizing the null pointer). */
  function ExecOf(o: Oracle, t: Trace, h: nat, rest: JsString, params: Option<Params>, wrapped: bool, acc: seq<ResultSet>)
    : (Trace, Result<seq<ResultSet>, Thrown>)
    requires WellBehaved(o)
    decreases |rest|
  {
    if rest == [] || rest[0] == 0 then (t, Ok(acc))
    else
      var c := PrepareV2(h, rest);
      var t1 := t + [c];
      if o.code(t, c) != 0 then
        (t1 + (if wrapped then [Finalize(0)] else []), Err(ThrownError(o.errmsg(t1, h))))
      else
        var p := o.prepared(t, h, rest);
        var next := rest[Min(o.consumed(t, h, rest), |rest|)..];
        if p == 0 then ExecOf(o, t1, h, next, params, wrapped, acc)
        else
          var (t2, found) := CollectOf(o, t1, h, p, params);
          if found.Err? then (t2 + [Finalize(p)], Err(found.error))
          else ExecOf(o, t2 + [Finalize(p)], h, next, params, true, acc + (if found.value.Some? then [found.value.value] else []))
  }

  /** exec: "Database closed" on a closed database; otherwise its loop. */
  function ExecScript(o: Oracle, t: Trace, handle: Option<nat>, sql: JsString, params: Option<Params>)
    : (Trace, Result<seq<ResultSet>, Thrown>)
    requires WellBehaved(o)
  {
    if handle.None? || handle.value == 0 then (t, Err(ThrownString(DatabaseClosed)))
    else ExecOf(o, t, handle.value, sql, params, false, [])
  }

  /** Every entry exec returns has at least one row, the rows the engine
      gave, and what was collected before stays in front. */
  lemma {:induction false} ExecOfResults(o: Oracle, t: Trace, h: nat, rest: JsString, params: Option<Params>, wrapped: bool, acc: seq<ResultSet>)
    requires WellBehaved(o)
    requires forall i :: 0 <= i < |acc| ==> 0 < |acc[i].values|
    ensures var (t', r) := ExecOf(o, t, h, rest, params, wrapped, acc);
      t <= t' && (r.Ok? ==> acc <= r.value && forall i :: 0 <= i < |r.value| ==> 0 < |r.value[i].values|)
    decreases |rest|
  {
    if rest != [] && rest[0] != 0 && o.code(t, PrepareV2(h, rest)) == 0 {
      var t1 := t + [PrepareV2(h, rest)];
      var p := o.prepared(t, h, rest);
      var next := rest[Min(o.consumed(t, h, rest), |rest|)..];
      if p == 0 {
        ExecOfResults(o, t1, h, next, params, wrapped, acc);
      } else {
        var (t2, found) := CollectOf(o, t1, h, p, params);
        CollectOfGrows(o, t1, h, p, params);
        if found.Ok? {
          var acc' := acc + (if found.value.Some? then [found.value.value] else []);
          ExecOfResults(o, t2 + [Finalize(p)], h, next, params, true, acc');
        }
      }
    }
  }

  /** A collected entry is never empty, and collecting only appends calls. */
  lemma CollectOfGrows(o: Oracle, t: Trace, h: nat, p: nat, params: Option<Params>)
    requires WellBehaved(o)
    ensures var (t', r) := CollectOf(o, t, h, p, params);
      t <= t' && (r.Ok? && r.value.Some? ==> 0 < |r.value.value.values|)
  {
    var t1 := if params.Some? then BindOf(o, t, p, h, params.value).0 else t;
    if params.Some? {
      BindOfGrows(o, t, p, h, params.value);
    }
    StepAllShape(o, t1, p);
  }

  /** A script of one statement (the first prepare uses it all up) without
      parameters: prepare, step to the end, finalize; the result is that
      statement's rows, read at each step, under the column names read at
      the first row, or no entry when it gave none. */
  lemma ExecOneStatement(o: Oracle, t: Trace, h: nat, sql: JsString)
    requires WellBehaved(o) && h != 0 && sql != [] && sql[0] != 0
    requires o.code(t, PrepareV2(h, sql)) == 0 && o.prepared(t, h, sql) != 0 && o.consumed(t, h, sql) >= |sql|
    requires StepAll(o, t + [PrepareV2(h, sql)], o.prepared(t, h, sql)).last == SqliteDone
    ensures var p := o.prepared(t, h, sql);
      var t1 := t + [PrepareV2(h, sql)];
      var s := StepAll(o, t1, p);
      ExecScript(o, t, Some(h), sql, None) ==
        (t1 + Steps(p, |s.rowTraces| + 1) + [Finalize(p)],
         Ok(if s.rowTraces == [] then [] else [ResultSet(o.columnNames(t1 + [StepStmt(p)], p), RowsAt(o, p, s.rowTraces))]))
  {
    var p := o.prepared(t, h, sql);
    var t1 := t + [PrepareV2(h, sql)];
    StepAllShape(o, t1, p);
    assert sql[Min(o.consumed(t, h, sql), |sql|)..] == [];
    var s := StepAll(o, t1, p);
    assert Steps(p, 1) == [StepStmt(p)];
    var (t2, found) := CollectOf(o, t1, h, p, None);
    assert t2 == s.trace && found.Ok?;
    var acc := if found.value.Some? then [found.value.value] else [];
    assert ExecOf(o, t, h, sql, None, false, []) == ExecOf(o, t2 + [Finalize(p)], h, [], None, true, [] + acc);
    assert [] + acc == acc;
    if s.rowTraces != [] {
      assert s.rowTraces[0] == t1 + [StepStmt(p)];
    }
  }

  /** each: prepare the first statement, step through its rows handing each
      row's object to the callback (modelled as the list of objects), and
      free it whatever the steps did. */
  function EachOf(o: Oracle, t: Trace, h: nat, sql: JsString, params: Option<Params>): (Trace, seq<RowObject>, Result<(), Thrown>)
    requires WellBehaved(o)
  {
    var (t1, pr) := PrepareOf(o, t, h, sql, params);
    if pr.Err? then (t1, [], Err(pr.error))
    else
      var p := pr.value;
      var s := StepAll(o, t1, p);
      (s.trace + [Finalize(p)], ObjectsAt(o, p, s.rowTraces),
       if s.last == SqliteDone then Ok(()) else Err(StepFailure(o, s.trace, h, s.last)))
  }

  /** Once prepared, each makes one row object per SQLITE_ROW step, from the
      column names and values at that step, in order, and then finalizes
      the statement; a failed prepare gives no row. */
  lemma EachOfRows(o: Oracle, t: Trace, h: nat, sql: JsString, params: Option<Params>)
    requires WellBehaved(o)
    ensures var (t1, pr) := PrepareOf(o, t, h, sql, params);
      var (t', rows, r) := EachOf(o, t, h, sql, params);
      (pr.Err? ==> t' == t1 && rows == [] && r == Err(pr.error)) &&
      (pr.Ok? ==>
        var n := |rows|;
        t' == t1 + Steps(pr.value, n + 1) + [Finalize(pr.value)] &&
        (r.Ok? <==> o.code(t1 + Steps(pr.value, n), StepStmt(pr.value)) == SqliteDone) &&
        forall i :: 0 <= i < n ==>
          o.code(t1 + Steps(pr.value, i), StepStmt(pr.value)) == SqliteRow &&
          rows[i] == AsObject(o.columnNames(t1 + Steps(pr.value, i + 1), pr.value), o.rowValues(t1 + Steps(pr.value, i + 1), pr.value)))
  {
    var (t1, pr) := PrepareOf(o, t, h, sql, params);
    if pr.Ok? {
      StepAllShape(o, t1, pr.value);
    }
  }

  /** Truthiness of parameters, as `if (params)` reads it. */
  predicate Truthy(params: Params) {
    !params.Scalar? || params.truthy
  }

  /** Database.run: "Database closed" on a closed database; without (truthy)
      parameters, the script in one call; with them, prepare, one step, and
      free whatever the step did. */
  function RunOf(o: Oracle, t: Trace, handle: Option<nat>, sql: JsString, params: Option<Params>): (Trace, Result<(), Thrown>)
  {
    if handle.None? || handle.value == 0 then (t, Err(ThrownString(DatabaseClosed)))
    else
      var h := handle.value;
      if params.None? || !Truthy(params.value) then
        var t1 := t + [RunScript(h, sql)];
        (t1, if o.code(t, RunScript(h, sql)) == 0 then Ok(()) else Err(ThrownError(o.errmsg(t1, h))))
      else
        var (t1, pr) := PrepareOf(o, t, h, sql, params);
        if pr.Err? then (t1, Err(pr.error))
        else
          var p := pr.value;
          var rc := o.code(t1, StepStmt(p));
          var t2 := t1 + [StepStmt(p)];
          (t2 + [Finalize(p)], if rc == SqliteRow || rc == SqliteDone then Ok(()) else Err(StepFailure(o, t2, h, rc)))
  }

  /** run with parameters ends by finalizing the statement it prepared,
      right after its one step, and succeeds exactly when prepare did and
      the step gave a row or finished. */
  lemma RunOfParams(o: Oracle, t: Trace, h: nat, sql: JsString, params: Params)
    requires h != 0 && Truthy(params)
    ensures var (t1, pr) := PrepareOf(o, t, h, sql, Some(params));
      var (t', r) := RunOf(o, t, Some(h), sql, Some(params));
      (pr.Err? ==> t' == t1 && r == Err(pr.error)) &&
      (pr.Ok? ==>
         t' == t1 + [StepStmt(pr.value), Finalize(pr.value)] &&
         (r.Ok? <==> o.code(t1, StepStmt(pr.value)) == SqliteRow || o.code(t1, StepStmt(pr.value)) == SqliteDone))
  {
  }

  /** close on a live handle: free every statement in ascending order,
      close the handle (its error leaves the file), then delete the file. */
  ghost function CloseOf(o: Oracle, t: Trace, h: nat, filename: JsString, keys: set<nat>): (Trace, Result<(), Thrown>)
  {
    var t1 := t + Finalizes(Ascending(keys));
    var t2 := t1 + [CloseDb(h)];
    var path := ['/' as Unit] + filename;
    if o.code(t1, CloseDb(h)) != 0 then (t2, Err(ThrownError(o.errmsg(t2, h))))
    else (t2 + [RemoveFile(path)], if o.code(t2, RemoveFile(path)) == 0 then Ok(()) else Err(ThrownError(FsError)))
  }

  /** export: free every statement, close the handle, read the file, and
      reopen it; the file's bytes as they were after the close. */
  ghost function ExportOf(o: Oracle, t: Trace, h: nat, filename: JsString, keys: set<nat>): (Trace, Result<seq<Byte>, Thrown>)
  {
    var t1 := t + Finalizes(Ascending(keys));
    var t2 := t1 + [CloseDb(h)];
    var bytes := o.fileBytes(t2, filename);
    if o.code(t1, CloseDb(h)) != 0 then (t2, Err(ThrownError(o.errmsg(t2, h))))
    else if bytes.None? then (t2, Err(ThrownError(FsError)))
    else
      var t3 := t2 + [Open(filename)];
      (t3, if o.code(t2, Open(filename)) == 0 then Ok(bytes.value) else Err(ThrownError(o.errmsg(t3, h))))
  }

  /** export succeeds exactly when the close, the read and the reopen all
      do, and then returns what was read; each failure gives its own
      error, and every path starts by finalizing all statements. */
  lemma ExportOfOk(o: Oracle, t: Trace, h: nat, filename: JsString, keys: set<nat>)
    ensures var t1 := t + Finalizes(Ascending(keys)) + [CloseDb(h)];
      var (t', r) := ExportOf(o, t, h, filename, keys);
      t1 <= t' &&
      (r.Ok? <==> o.code(t1[..|t1| - 1], CloseDb(h)) == 0 && o.fileBytes(t1, filename).Some? && o.code(t1, Open(filename)) == 0) &&
      (r.Ok? ==> r.value == o.fileBytes(t1, filename).value && t' == t1 + [Open(filename)]) &&
      (o.code(t1[..|t1| - 1], CloseDb(h)) != 0 ==> r == Err(ThrownError(o.errmsg(t1, h)))) &&
      (o.code(t1[..|t1| - 1], CloseDb(h)) == 0 && o.fileBytes(t1, filename).None? ==> r == Err(ThrownError(FsError)))
  {
    var t0 := t + Finalizes(Ascending(keys));
    assert (t0 + [CloseDb(h)])[..|t0|] == t0;
  }

  /** The call new Database makes for non-null data: create the file for a
      falsy value, create it and write the bytes into it otherwise. */
  function ImageCall(filename: JsString, image: Image): (c: Call)
    ensures c.CreateFile? <==> image.Blank?
    ensures c.WriteImage? ==> c.filename == filename && c.bytes == image.bytes
  {
    match image
    case Blank => CreateFile(filename)
    case Bytes(bytes) => WriteImage(filename, bytes)
  }

  /** The file calls before the open: none for null or undefined data. */
  function ImageCalls(filename: JsString, image: Option<Image>): seq<Call>
  {
    if image.Some? then [ImageCall(filename, image.value)] else []
  }

  /** new Database(data): for non-null data create the file, writing the
      bytes into it when the data is truthy (an FS error throws), open it
      (its error throws, read off the null handle), and register the
      extension functions on the new handle. */
  function OpenOf(o: Oracle, t: Trace, filename: JsString, image: Option<Image>): (Trace, Result<nat, Thrown>)
  {
    var w := ImageCalls(filename, image);
    var t1 := t + w + [Open(filename)];
    var h := o.handle(t + w, filename);
    if image.Some? && o.code(t, ImageCall(filename, image.value)) != 0 then (t + w, Err(ThrownError(FsError)))
    else if o.code(t + w, Open(filename)) != 0 then (t1, Err(ThrownError(o.errmsg(t1, 0))))
    else (t1 + [RegisterExtensions(h)], Ok(h))
  }

  /** Opening succeeds exactly when the file call (if any) and the open
      both return 0, and then gives the engine's handle, registered right
      after the open; a failed file call throws the FS error before any
      open, and a failed open throws errmsg of the null handle. Null data
      makes no file call, falsy data only creates the file, and only
      truthy data writes bytes. */
  lemma OpenOfOk(o: Oracle, t: Trace, filename: JsString, image: Option<Image>)
    ensures var w := ImageCalls(filename, image);
      var wrote := image.None? || o.code(t, ImageCall(filename, image.value)) == 0;
      var (t', r) := OpenOf(o, t, filename, image);
      t + w <= t' &&
      (image.None? <==> w == []) &&
      (image == Some(Blank) ==> w == [CreateFile(filename)]) &&
      (image.Some? && image.value.Bytes? ==> w == [WriteImage(filename, image.value.bytes)]) &&
      (r.Ok? <==> wrote && o.code(t + w, Open(filename)) == 0) &&
      (r.Ok? ==> r.value == o.handle(t + w, filename) && t' == t + w + [Open(filename), RegisterExtensions(r.value)]) &&
      (!wrote ==> t' == t + w && r == Err(ThrownError(FsError))) &&
      (wrote && o.code(t + w, Open(filename)) != 0 ==>
        t' == t + w + [Open(filename)] && r == Err(ThrownError(o.errmsg(t', 0))))
  {
    var w := ImageCalls(filename, image);
    assert t + w + [Open(filename)] + [RegisterExtensions(o.handle(t + w, filename))] == t + w + [Open(filename), RegisterExtensions(o.handle(t + w, filename))];
  }

  /** A prepared statement (the source's class `a`). */
  class Statement {
    var ptr: nat
    const db: Database
    var cursor: nat

    constructor (ptr: nat, db: Database)
      ensures this.ptr == ptr && this.db == db && cursor == 1
    {
      this.ptr := ptr;
      this.db := db;
      cursor := 1;
    }

    /** The column names of the current result (getColumnNames). */
    function ColumnNames(): seq<JsString>
      reads this, db.engine
    {
      db.engine.oracle.columnNames(db.engine.trace, ptr)
    }

    /** The current row's values (get with no parameters). */
    function Values(): Row
      reads this, db.engine
    {
      db.engine.oracle.rowValues(db.engine.trace, ptr)
    }

    /** step: "Statement closed" once freed; otherwise true for a row, false
        when done, and the engine's error for any other code. */
    method Step() returns (r: Result<bool, Thrown>)
      modifies this, db.engine
      ensures old(ptr) == 0 ==> r == Err(ThrownString(StatementClosed)) && db.engine.trace == old(db.engine.trace) && cursor == old(cursor)
      ensures old(ptr) != 0 ==>
        db.engine.trace == old(db.engine.trace) + [StepStmt(ptr)] && cursor == 1 &&
        var rc := db.engine.oracle.code(old(db.engine.trace), StepStmt(ptr));
        r == (if rc == SqliteRow then Ok(true) else if rc == SqliteDone then Ok(false)
              else Err(StepFailure(db.engine.oracle, db.engine.trace, db.Raw(), rc)))
      ensures ptr == old(ptr)
    {
      if ptr == 0 {
        return Err(ThrownString(StatementClosed));
      }
      cursor := 1;
      var rc := db.engine.Invoke(StepStmt(ptr));
      if rc == SqliteRow {
        return Ok(true);
      } else if rc == SqliteDone {
        return Ok(false);
      }
      return Err(StepFailure(db.engine.oracle, db.engine.trace, db.Raw(), rc));
    }

    /** reset: clear the bindings, and reset only when that succeeded.
        The method realises `ResetOf` on the engine's trace. */
    method Reset() returns (ok: bool)
      modifies db.engine
      ensures (db.engine.trace, ok) == ResetOf(db.engine.oracle, old(db.engine.trace), ptr)
    {
      var c := db.engine.Invoke(ClearBindings(ptr));
      if c != 0 {
        return false;
      }
      var r := db.engine.Invoke(ResetStmt(ptr));
      assert db.engine.trace == old(db.engine.trace) + [ClearBindings(ptr), ResetStmt(ptr)];
      return r == 0;
    }

    /** vb: binds one value at a parameter index, or throws for a value of
        an unknown type.
        The method realises `BindOne` on the engine's trace. */
    method BindAt(v: Param, index: nat) returns (r: Result<(), Thrown>)
      modifies db.engine
      ensures (db.engine.trace, r) == BindOne(db.engine.oracle, old(db.engine.trace), ptr, db.Raw(), v, index)
    {
      if v.Unbindable? {
        return Err(ThrownString(UnknownType(v.shown)));
      }
      var rc := db.engine.Invoke(BindValue(ptr, index, v.value));
      if v.value.NullValue? || rc == 0 {
        return Ok(());
      }
      return Err(ThrownError(db.engine.oracle.errmsg(db.engine.trace, db.Raw())));
    }

    /** Eb: binds an array of values at positions 1, 2, …, stopping at the
        first error.
        The method realises `PositionalOf` on the engine's trace. */
    method BindPositional(vs: seq<Param>) returns (r: Result<bool, Thrown>)
      modifies db.engine
      ensures (db.engine.trace, r) == PositionalOf(db.engine.oracle, old(db.engine.trace), ptr, db.Raw(), vs, 1)
    {
      ghost var o := db.engine.oracle;
      var i := 0;
      while i < |vs|
        invariant 0 <= i <= |vs|
        invariant PositionalOf(o, old(db.engine.trace), ptr, db.Raw(), vs, 1) == PositionalOf(o, db.engine.trace, ptr, db.Raw(), vs[i..], i + 1)
      {
        assert vs[i..][1..] == vs[i + 1..];
        var b := BindAt(vs[i], i + 1);
        if b.Err? {
          return Err(b.error);
        }
        i := i + 1;
      }
      return Ok(true);
    }

    /** Fb: binds an object's entries by name; a name the statement does not
        have (index 0) is skipped.
        The method realises `NamedOf` on the engine's trace. */
    method BindNamed(es: seq<(JsString, Param)>) returns (r: Result<bool, Thrown>)
      modifies db.engine
      ensures (db.engine.trace, r) == NamedOf(db.engine.oracle, old(db.engine.trace), ptr, db.Raw(), es)
    {
      ghost var o := db.engine.oracle;
      var i := 0;
      while i < |es|
        invariant 0 <= i <= |es|
        invariant NamedOf(o, old(db.engine.trace), ptr, db.Raw(), es) == NamedOf(o, db.engine.trace, ptr, db.Raw(), es[i..])
      {
        assert es[i..][1..] == es[i + 1..];
        var index := db.engine.oracle.paramIndex(db.engine.trace, ptr, es[i].0);
        if index != 0 {
          var b := BindAt(es[i].1, index);
          if b.Err? {
            return Err(b.error);
          }
        }
        i := i + 1;
      }
      return Ok(true);
    }

    /** bind: "Statement closed" once freed; otherwise reset, then bind.
        The method realises `BindOf` on the engine's trace. */
    method Bind(params: Params) returns (r: Result<bool, Thrown>)
      modifies db.engine
      ensures (db.engine.trace, r) == BindOf(db.engine.oracle, old(db.engine.trace), ptr, db.Raw(), params)
    {
      if ptr == 0 {
        return Err(ThrownString(StatementClosed));
      }
      var _ := Reset();
      match params {
        case Positional(vs) =>
          r := BindPositional(vs);
        case Named(es) =>
          r := BindNamed(es);
        case Scalar(_) =>
          r := Ok(true);
      }
    }

    /** free: finalize, drop the statement from its database's map and mark
        it freed; answers whether finalize succeeded. Freeing twice finalizes
        the null pointer. */
    method Free() returns (ok: bool)
      modifies this, db, db.engine
      ensures ptr == 0 && cursor == old(cursor)
      ensures db.statements == old(db.statements) - {old(ptr)} && db.handle == old(db.handle)
      ensures db.engine.trace == old(db.engine.trace) + [Finalize(old(ptr))]
      ensures ok <==> db.engine.oracle.code(old(db.engine.trace), Finalize(old(ptr))) == 0
    {
      var rc := db.engine.Invoke(Finalize(ptr));
      db.statements := db.statements - {ptr};
      ptr := 0;
      return rc == 0;
    }
  }

  /** A database (the source's class `c`). */
  class Database {
    const filename: JsString
    const engine: Engine
    var handle: Option<nat>
    var statements: map<nat, Statement>

    /** Every statement in the map belongs to this database and sits under
        its own pointer. */
    ghost predicate Valid()
      reads this, statements.Values
    {
      forall k :: k in statements ==> statements[k].db == this && statements[k].ptr == k
    }

    constructor (engine: Engine, filename: JsString)
      ensures this.engine == engine && this.filename == filename
      ensures handle == None && statements == map[] && Valid()
    {
      this.engine := engine;
      this.filename := filename;
      handle := None;
      statements := map[];
    }

    /** The handle as the engine receives it: null becomes 0. */
    function Raw(): nat
      reads this
    {
      if handle.Some? then handle.value else 0
    }

    /** `!this.db`: null and the 0 handle both count as closed. */
    predicate IsOpen()
      reads this
    {
      handle.Some? && handle.value != 0
    }

    /** handleError: nothing for code 0, otherwise an Error with the engine's
        message for this database's handle. */
    function HandleError(rc: int): (r: Result<(), Thrown>)
      reads this, engine
      ensures r.Ok? <==> rc == 0
      ensures r.Err? ==> r.error == ThrownError(engine.oracle.errmsg(engine.trace, Raw()))
    {
      if rc == 0 then Ok(()) else Err(ThrownError(engine.oracle.errmsg(engine.trace, Raw())))
    }

    /** Frees the statement with the least pointer. */
    method FreeLeast() returns (ghost m: nat)
      requires Valid() && statements != map[]
      modifies this, engine, statements[Least(statements.Keys)]
      ensures Valid() && handle == old(handle)
      ensures m == Least(old(statements).Keys)
      ensures statements == old(statements) - {m} && old(statements)[m].ptr == 0
      ensures engine.trace == old(engine.trace) + [Finalize(m)]
    {
      var keys := statements.Keys;
      HasLeast(keys);
      var least :| least in keys && forall k :: k in keys ==> least <= k;
      m := least;
      assert least == Least(keys);
      var s := statements[least];
      var _ := s.Free();
    }

    /** Frees every statement in the map, in ascending pointer order. */
    method FreeAll()
      requires Valid()
      modifies this, engine, statements.Values
      ensures Valid() && statements == map[] && handle == old(handle)
      ensures engine.trace == old(engine.trace) + Finalizes(Ascending(old(statements).Keys))
      ensures forall k :: k in old(statements) ==> old(statements)[k].ptr == 0
    {
      while statements != map[]
        invariant Valid() && handle == old(handle)
        invariant forall k :: k in statements ==> k in old(statements) && statements[k] == old(statements)[k]
        invariant forall k :: k in old(statements) && k !in statements ==> old(statements)[k].ptr == 0
        invariant forall k, j :: k in old(statements) && j in old(statements) && k != j ==> old(statements)[k] != old(statements)[j]
        invariant old(engine.trace) + Finalizes(Ascending(old(statements).Keys)) ==
                  engine.trace + Finalizes(Ascending(statements.Keys))
        decreases statements.Keys
      {
        FinalizeFirst(engine.trace, statements.Keys);
        ghost var before := statements;
        ghost var m := FreeLeast();
        forall k | k in old(statements) && k !in statements
          ensures old(statements)[k].ptr == 0
        {
          if k != m {
            assert k !in before;
          }
        }
      }
    }

    /** close: a no-op once closed; otherwise free the statements, close the
        engine handle, delete the database file and forget the handle. An
        error from the engine or the file system leaves the handle set.
        The method realises `CloseOf` on the engine's trace. */
    method Close() returns (r: Result<(), Thrown>)
      requires Valid()
      modifies this, engine, statements.Values
      ensures Valid()
      ensures old(handle).None? ==> r == Ok(()) && engine.trace == old(engine.trace) && statements == old(statements) && handle == None
      ensures old(handle).Some? ==>
        statements == map[] &&
        (forall k :: k in old(statements) ==> old(statements)[k].ptr == 0) &&
        (engine.trace, r) == CloseOf(engine.oracle, old(engine.trace), old(handle).value, filename, old(statements).Keys) &&
        handle == if r.Ok? then None else old(handle)
    {
      if handle.None? {
        return Ok(());
      }
      FreeAll();
      var rc := engine.Invoke(CloseDb(Raw()));
      var e := HandleError(rc);
      if e.Err? {
        return Err(e.error);
      }
      var path := ['/' as Unit] + filename;
      var removed := engine.Invoke(RemoveFile(path));
      if removed != 0 {
        return Err(ThrownError(FsError));
      }
      handle := None;
      return Ok(());
    }

    /** export: free the statements, close the handle, read the database
        file, and reopen it under a new handle; answers the file's bytes.
        Unlike close it runs whatever the handle is.
        The method realises `ExportOf` on the engine's trace. */
    method Export() returns (r: Result<seq<Byte>, Thrown>)
      requires Valid()
      modifies this, engine, statements.Values
      ensures Valid() && statements == map[]
      ensures forall k :: k in old(statements) ==> old(statements)[k].ptr == 0
      ensures (engine.trace, r) == ExportOf(engine.oracle, old(engine.trace), old(Raw()), filename, old(statements).Keys)
      ensures r.Ok? ==>
        handle == Some(engine.oracle.handle(old(engine.trace) + Finalizes(Ascending(old(statements).Keys)) + [CloseDb(old(Raw()))], filename))
      ensures r.Err? ==> handle == old(handle)
    {
      FreeAll();
      var rc := engine.Invoke(CloseDb(Raw()));
      var e := HandleError(rc);
      if e.Err? {
        return Err(e.error);
      }
      var bytes := engine.oracle.fileBytes(engine.trace, filename);
      if bytes.None? {
        return Err(ThrownError(FsError));
      }
      var t := engine.trace;
      var reopened := engine.Invoke(Open(filename));
      var e2 := HandleError(reopened);
      if e2.Err? {
        return Err(e2.error);
      }
      handle := Some(engine.oracle.handle(t, filename));
      return Ok(bytes.value);
    }

    /** prepare: compile the first statement of `sql` (there is no closed
        check: a closed database passes the null handle to the engine),
        "Nothing to prepare" when the text holds none, bind the parameters,
        and register the statement under its pointer.
        The method realises `PrepareOf` on the engine's trace. */
    method Prepare(sql: JsString, params: Option<Params>) returns (r: Result<Statement, Thrown>)
      requires Valid()
      modifies this, engine
      ensures Valid() && handle == old(handle)
      ensures var (t, pr) := PrepareOf(engine.oracle, old(engine.trace), Raw(), sql, params);
        engine.trace == t && r.Ok? == pr.Ok? &&
        (r.Err? ==> r.error == pr.error && statements == old(statements)) &&
        (r.Ok? ==> fresh(r.value) && r.value.ptr == pr.value && r.value.db == this &&
                   statements == old(statements)[pr.value := r.value])
    {
      var t := engine.trace;
      var rc := engine.Invoke(PrepareV2(Raw(), sql));
      var e := HandleError(rc);
      if e.Err? {
        return Err(e.error);
      }
      var p := engine.oracle.prepared(t, Raw(), sql);
      if p == 0 {
        return Err(ThrownString(NothingToPrepare));
      }
      var q := new Statement(p, this);
      if params.Some? {
        var b := q.Bind(params.value);
        if b.Err? {
          return Err(b.error);
        }
      }
      statements := statements[p := q];
      return Ok(q);
    }

    /** run: "Database closed" when closed; with parameters, prepare, step
        once and free; without, hand the whole script to the engine.
        The method realises `RunOf` on the engine's trace. */
    method Run(sql: JsString, params: Option<Params>) returns (r: Result<(), Thrown>)
      requires Valid()
      modifies this, engine, statements.Values
      ensures Valid() && handle == old(handle)
      ensures (engine.trace, r) == RunOf(engine.oracle, old(engine.trace), old(handle), sql, params)
      ensures statements.Keys <= old(statements).Keys
    {
      if !IsOpen() {
        return Err(ThrownString(DatabaseClosed));
      }
      if params.None? || !Truthy(params.value) {
        var rc := engine.Invoke(RunScript(Raw(), sql));
        return HandleError(rc);
      }
      var p := Prepare(sql, params);
      if p.Err? {
        return Err(p.error);
      }
      var g := p.value;
      var s := g.Step();
      var _ := g.Free();
      if s.Err? {
        return Err(s.error);
      }
      return Ok(());
    }

    /** Steps a statement through all its rows; the result set when it
        produced at least one.
        The method realises `CollectOf` on the engine's trace. */
    method Collect(z: Statement, params: Option<Params>) returns (r: Result<Option<ResultSet>, Thrown>)
      requires z.db == this && z.ptr != 0 && WellBehaved(engine.oracle)
      modifies z, engine
      ensures z.ptr == old(z.ptr)
      ensures (engine.trace, r) == CollectOf(engine.oracle, old(engine.trace), Raw(), z.ptr, params)
    {
      ghost var o := engine.oracle;
      ghost var p := z.ptr;
      if params.Some? {
        var b := z.Bind(params.value);
        if b.Err? {
          return Err(b.error);
        }
      }
      ghost var t1 := engine.trace;
      var columns: Option<seq<JsString>> := None;
      var rows: seq<Row> := [];
      ghost var seen: seq<Trace> := [];
      ghost var prior := engine.trace;
      var s := z.Step();
      while s == Ok(true)
        invariant z.ptr == p && p != 0
        invariant engine.trace == prior + [StepStmt(p)]
        invariant s == StepAnswer(o, prior, p, Raw())
        invariant StepAll(o, t1, p) == After(seen, StepAll(o, prior, p))
        invariant rows == RowsAt(o, p, seen)
        invariant columns == if seen == [] then None else Some(o.columnNames(seen[0], p))
        decreases o.rowsLeft(prior, p)
      {
        if columns.None? {
          columns := Some(z.ColumnNames());
        }
        rows := rows + [z.Values()];
        WellBehavedStep(o, prior, p);
        AfterStep(o, seen, prior, p);
        seen := seen + [engine.trace];
        prior := engine.trace;
        s := z.Step();
      }
      StepLast(o, seen, prior, p);
      if s.Err? {
        return Err(s.error);
      }
      if columns.None? {
        return Ok(None);
      }
      return Ok(Some(ResultSet(columns.value, rows)));
    }

    /** One statement of exec: wrap the pointer (without registering it),
        collect its rows, and free it. */
    method ExecStatement(p: nat, params: Option<Params>) returns (z: Statement, r: Result<Option<ResultSet>, Thrown>)
      requires Valid() && p != 0 && WellBehaved(engine.oracle)
      modifies this, engine
      ensures Valid() && handle == old(handle)
      ensures fresh(z) && z.db == this && z.ptr == 0
      ensures var (t, found) := CollectOf(engine.oracle, old(engine.trace), Raw(), p, params);
        engine.trace == t + [Finalize(p)] && r == found
      ensures statements == old(statements) - {p}
    {
      z := new Statement(p, this);
      r := Collect(z, params);
      var _ := z.Free();
    }

    /** One round of exec's loop on a script that has not ended: prepare its
        first statement; when that fails, free the statement in hand (if
        any) and rethrow; when it gives a statement, collect and free it. */
    method ExecRound(rest: JsString, params: Option<Params>, last: Statement?, ghost acc: seq<ResultSet>)
      returns (next: JsString, z: Statement?, r: Result<Option<ResultSet>, Thrown>)
      requires Valid() && IsOpen() && WellBehaved(engine.oracle) && rest != [] && rest[0] != 0
      requires last != null ==> last.db == this && last.ptr == 0
      modifies this, engine, last
      ensures Valid() && handle == old(handle) && statements.Keys <= old(statements).Keys
      ensures z != null ==> z.db == this && z.ptr == 0 && (z == last || fresh(z))
      ensures r.Ok? ==> |next| < |rest|
      ensures ExecOf(engine.oracle, old(engine.trace), Raw(), rest, params, last != null, acc) ==
        if r.Err? then (engine.trace, Err(r.error))
        else ExecOf(engine.oracle, engine.trace, Raw(), next, params, z != null, acc + (if r.value.Some? then [r.value.value] else []))
    {
      var before := engine.trace;
      var rc := engine.Invoke(PrepareV2(Raw(), rest));
      var e := HandleError(rc);
      z := last;
      next := rest;
      if e.Err? {
        ghost var t1 := engine.trace;
        if last != null {
          var _ := last.Free();
        }
        assert engine.trace == t1 + (if last != null then [Finalize(0)] else []);
        assert ExecOf(engine.oracle, before, Raw(), rest, params, last != null, acc) == (engine.trace, Err(e.error));
        return next, z, Err(e.error);
      }
      var p := engine.oracle.prepared(before, Raw(), rest);
      var used := engine.oracle.consumed(before, Raw(), rest);
      next := rest[Min(used, |rest|)..];
      if p == 0 {
        assert acc + [] == acc;
        return next, z, Ok(None);
      }
      z, r := ExecStatement(p, params);
    }

    /** exec: "Database closed" when closed; otherwise prepare and run each
        statement of the script in turn (up to its end or a NUL unit),
        collecting a `{columns, values}` entry for every statement that
        produced rows. On an error the statement in hand is freed (again, if
        it was already freed) and the error rethrown.
        The method realises `ExecScript` (the loop ExecOf) on the engine's trace. */
    method Exec(sql: JsString, params: Option<Params>) returns (r: Result<seq<ResultSet>, Thrown>)
      requires Valid() && WellBehaved(engine.oracle)
      modifies this, engine
      ensures Valid() && handle == old(handle)
      ensures (engine.trace, r) == ExecScript(engine.oracle, old(engine.trace), old(handle), sql, params)
      ensures statements.Keys <= old(statements).Keys
    {
      if !IsOpen() {
        return Err(ThrownString(DatabaseClosed));
      }
      ghost var o := engine.oracle;
      var rest := sql;
      var results: seq<ResultSet> := [];
      var last: Statement? := null;
      while rest != [] && rest[0] != 0
        invariant Valid() && handle == old(handle)
        invariant statements.Keys <= old(statements).Keys
        invariant last != null ==> last.db == this && fresh(last) && last.ptr == 0
        invariant ExecScript(o, old(engine.trace), old(handle), sql, params) == ExecOf(o, engine.trace, Raw(), rest, params, last != null, results)
        decreases |rest|
      {
        var next, z, found := ExecRound(rest, params, last, results);
        if found.Err? {
          return Err(found.error);
        }
        rest, last := next, z;
        assert results + [] == results;
        if found.value.Some? {
          results := results + [found.value.value];
        }
      }
      return Ok(results);
    }

    /** each's loop: step `g` until it stops, with the object of each row
        (what the callback receives) in order, and the last step's answer. */
    method RowObjects(g: Statement) returns (rows: seq<RowObject>, s: Result<bool, Thrown>)
      requires g.db == this && g.ptr != 0 && WellBehaved(engine.oracle)
      modifies g, engine
      ensures g.ptr == old(g.ptr)
      ensures var st := StepAll(engine.oracle, old(engine.trace), g.ptr);
        engine.trace == st.trace && rows == ObjectsAt(engine.oracle, g.ptr, st.rowTraces) &&
        s == (if st.last == SqliteDone then Ok(false) else Err(StepFailure(engine.oracle, st.trace, Raw(), st.last)))
    {
      ghost var o := engine.oracle;
      ghost var p := g.ptr;
      ghost var t1 := engine.trace;
      rows := [];
      ghost var seen: seq<Trace> := [];
      ghost var prior := engine.trace;
      s := g.Step();
      while s == Ok(true)
        invariant g.ptr == p && p != 0
        invariant engine.trace == prior + [StepStmt(p)]
        invariant s == StepAnswer(o, prior, p, Raw())
        invariant StepAll(o, t1, p) == After(seen, StepAll(o, prior, p))
        invariant rows == ObjectsAt(o, p, seen)
        decreases o.rowsLeft(prior, p)
      {
        rows := rows + [AsObject(g.ColumnNames(), g.Values())];
        WellBehavedStep(o, prior, p);
        AfterStep(o, seen, prior, p);
        seen := seen + [engine.trace];
        prior := engine.trace;
        s := g.Step();
      }
      StepLast(o, seen, prior, p);
    }

    /** each: prepare the first statement of `sql`, step through its rows
        (each row's object goes to the callback, modelled by returning the
        rows in order), and free it whatever happens.
        The method realises `EachOf` on the engine's trace. */
    method Each(sql: JsString, params: Option<Params>) returns (rows: seq<RowObject>, r: Result<(), Thrown>)
      requires Valid() && WellBehaved(engine.oracle)
      modifies this, engine
      ensures Valid() && handle == old(handle)
      ensures (engine.trace, rows, r) == EachOf(engine.oracle, old(engine.trace), Raw(), sql, params)
      ensures var pr := PrepareOf(engine.oracle, old(engine.trace), Raw(), sql, params).1;
        statements == if pr.Ok? then old(statements) - {pr.value} else old(statements)
    {
      var q := Prepare(sql, params);
      if q.Err? {
        return [], Err(q.error);
      }
      var g := q.value;
      var s;
      rows, s := RowObjects(g);
      var _ := g.Free();
      if s.Err? {
        return rows, Err(s.error);
      }
      return rows, Ok(());
    }
  }

  /** What step answers on a live statement, read off the trace before it. */
  function StepAnswer(o: Oracle, t: Trace, p: nat, h: nat): Result<bool, Thrown>
  {
    var rc := o.code(t, StepStmt(p));
    if rc == SqliteRow then Ok(true) else if rc == SqliteDone then Ok(false)
    else Err(StepFailure(o, t + [StepStmt(p)], h, rc))
  }

  /** Stepping with `seen` rows already behind. */
  function After(seen: seq<Trace>, s: Stepping): Stepping
  {
    Stepping(seen + s.rowTraces, s.trace, s.last)
  }

  /** One more row: the step that produced it moves behind. */
  lemma AfterStep(o: Oracle, seen: seq<Trace>, t: Trace, p: nat)
    requires WellBehaved(o) && o.code(t, StepStmt(p)) == SqliteRow
    ensures After(seen, StepAll(o, t, p)) == After(seen + [t + [StepStmt(p)]], StepAll(o, t + [StepStmt(p)], p))
  {
    var more := StepAll(o, t + [StepStmt(p)], p);
    assert StepAll(o, t, p).rowTraces == [t + [StepStmt(p)]] + more.rowTraces;
    AppendAssoc(seen, [t + [StepStmt(p)]], more.rowTraces);
  }

  /** The last step: no row, so stepping ends right after it. */
  lemma StepLast(o: Oracle, seen: seq<Trace>, t: Trace, p: nat)
    requires WellBehaved(o) && o.code(t, StepStmt(p)) != SqliteRow
    ensures After(seen, StepAll(o, t, p)) == Stepping(seen, t + [StepStmt(p)], o.code(t, StepStmt(p)))
  {
    assert seen + [] == seen;
  }

  lemma WellBehavedStep(o: Oracle, t: Trace, p: nat)
    requires WellBehaved(o) && o.code(t, StepStmt(p)) == SqliteRow
    ensures o.rowsLeft(t + [StepStmt(p)], p) < o.rowsLeft(t, p)
  {
  }

  /** new Database(data): create the database file for non-null data and
      write the bytes into it for truthy data, open it, and register the
      extension functions on the handle.
      A failing write or open throws and no database comes into being.
      The method realises `OpenOf` on the engine's trace. */
  method NewDatabase(engine: Engine, filename: JsString, image: Option<Image>) returns (r: Result<Database, Thrown>)
    modifies engine
    ensures var (t, made) := OpenOf(engine.oracle, old(engine.trace), filename, image);
      engine.trace == t && r.Ok? == made.Ok? &&
      (r.Err? ==> r.error == made.error) &&
      (r.Ok? ==> fresh(r.value) && r.value.Valid() && r.value.engine == engine && r.value.filename == filename &&
                 r.value.statements == map[] && r.value.handle == Some(made.value))
  {
    var d := new Database(engine, filename);
    if image.Some? {
      var written := engine.Invoke(ImageCall(filename, image.value));
      if written != 0 {
        return Err(ThrownError(FsError));
      }
    }
    var t := engine.trace;
    assert t == old(engine.trace) + ImageCalls(filename, image);
    var rc := engine.Invoke(Open(filename));
    var e := d.HandleError(rc);
    if e.Err? {
      return Err(e.error);
    }
    d.handle := Some(engine.oracle.handle(t, filename));
    var _ := engine.Invoke(RegisterExtensions(d.handle.value));
    return Ok(d);
  }
}
