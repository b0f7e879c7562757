/**
 * OpaPolicy, the host-side evaluator of a compiled policy. It keeps two
 * heap watermarks: baseHeapPtr, the heap pointer right after the initial
 * (empty) data document was loaded, and dataHeapPtr, the heap pointer right
 * after the current data document was loaded. Loading data always starts
 * again from baseHeapPtr, and every evaluation starts again from dataHeapPtr,
 * so nothing an evaluation allocates survives it.
 */
module Policy {
  import opened Wrappers
  import opened Exceptions
  import opened Sandbox

  predicate IsInt32(n: int) { -0x8000_0000 <= n <= 0x7FFF_FFFF }

  /** A member of a JSON object, as JsonDocument enumerates it: its name and its number. */
  type Member = (string, int)

  /**
   * JsonDocument.Parse of a text followed by EnumerateObject on its root; the
   * flag is the AllowTrailingCommas option (false by default, when a comma
   * before the closing brace is a JsonException).
   */
  type ObjectReader = (string, bool) -> Result<seq<Member>, Exception>

  /**
   * Adding entries one by one, as Dictionary.Add and ToDictionary do: the first
   * entry whose key or value cannot be computed throws its exception, and the
   * first entry whose key is already present throws ArgumentException.
   */
  function AddAll<K, V>(dict: map<K, V>, entries: seq<Result<(K, V), Exception>>): Result<map<K, V>, Exception>
    decreases |entries|
  {
    if entries == [] then Success(dict)
    else match entries[0]
      case Failure(e) => Failure(e)
      case Success((k, v)) => if k in dict then Failure(ArgumentException) else AddAll(dict[k := v], entries[1..])
  }

  /** Every entry can be computed, no key is already in dict, and no key comes twice. */
  ghost predicate Addable<K, V>(dict: map<K, V>, entries: seq<Result<(K, V), Exception>>)
  {
    && (forall i :: 0 <= i < |entries| ==> entries[i].Success? && entries[i].value.0 !in dict)
    && (forall i, j :: 0 <= i < j < |entries| && entries[i].Success? && entries[j].Success? ==>
          entries[i].value.0 != entries[j].value.0)
  }

  /** Adding succeeds exactly when the entries are addable. */
  lemma {:induction false} AddAllSucceeds<K, V>(dict: map<K, V>, entries: seq<Result<(K, V), Exception>>)
    ensures AddAll(dict, entries).Success? <==> Addable(dict, entries)
    decreases |entries|
  {
    if entries != [] && entries[0].Success? {
      var (k, v) := entries[0].value;
      var tail := entries[1..];
      AddAllSucceeds(dict[k := v], tail);
      if Addable(dict, entries) {
        assert Addable(dict[k := v], tail) by {
          forall i | 0 <= i < |tail| ensures tail[i].Success? && tail[i].value.0 !in dict[k := v] {
            assert tail[i] == entries[i + 1];
          }
          forall i, j | 0 <= i < j < |tail| && tail[i].Success? && tail[j].Success?
            ensures tail[i].value.0 != tail[j].value.0
          {
            assert tail[i] == entries[i + 1] && tail[j] == entries[j + 1];
          }
        }
      }
      if k !in dict && Addable(dict[k := v], tail) {
        assert Addable(dict, entries) by {
          forall i | 0 <= i < |entries| ensures entries[i].Success? && entries[i].value.0 !in dict {
            if i > 0 { assert entries[i] == tail[i - 1]; }
          }
          forall i, j | 0 <= i < j < |entries| && entries[i].Success? && entries[j].Success?
            ensures entries[i].value.0 != entries[j].value.0
          {
            assert entries[j] == tail[j - 1];
            if i > 0 { assert entries[i] == tail[i - 1]; }
          }
        }
      }
    }
  }

  /** The dictionary built holds dict and exactly the entries' key-value pairs. */
  lemma {:induction false} AddAllContents<K, V>(dict: map<K, V>, entries: seq<Result<(K, V), Exception>>)
    requires AddAll(dict, entries).Success?
    ensures var r := AddAll(dict, entries).value;
      && (forall k :: k in dict ==> k in r && r[k] == dict[k])
      && (forall i :: 0 <= i < |entries| ==>
            entries[i].Success? && entries[i].value.0 in r && r[entries[i].value.0] == entries[i].value.1)
      && (forall k :: k in r ==> k in dict || exists i :: 0 <= i < |entries| && entries[i] == Success((k, r[k])))
    decreases |entries|
  {
    if entries != [] {
      var (k, v) := entries[0].value;
      var tail := entries[1..];
      AddAllContents(dict[k := v], tail);
      var r := AddAll(dict, entries).value;
      assert r == AddAll(dict[k := v], tail).value;
      forall i | 0 <= i < |entries|
        ensures entries[i].Success? && entries[i].value.0 in r && r[entries[i].value.0] == entries[i].value.1
      {
        if i > 0 { assert entries[i] == tail[i - 1]; }
      }
      forall k' | k' in r ensures k' in dict || exists i :: 0 <= i < |entries| && entries[i] == Success((k', r[k']))
      {
        if k' !in dict[k := v] {
          var i :| 0 <= i < |tail| && tail[i] == Success((k', r[k']));
          assert entries[i + 1] == tail[i];
        } else if k' == k && k !in dict {
          assert entries[0] == Success((k', r[k']));
        }
      }
    }
  }

  /** JsonElement.GetInt32 of a member's number. */
  function GetInt32(n: int): (r: Result<int, Exception>)
    ensures r.Success? <==> IsInt32(n)
    ensures r.Success? ==> r.value == n
    ensures r.Failure? ==> r.error == FormatException
  {
    if IsInt32(n) then Success(n) else Failure(FormatException)
  }

  /** One member of the builtins metadata as ToDictionary(id, name) sees it. */
  function BuiltinEntry(m: Member): (r: Result<(int, string), Exception>)
    ensures r.Success? <==> IsInt32(m.1)
    ensures r.Success? ==> r.value == (m.1, m.0)
  {
    match GetInt32(m.1) case Failure(e) => Failure(e) case Success(id) => Success((id, m.0))
  }

  /** The builtins metadata, name -> id, turned round with ToDictionary(id, name). */
  function BuiltinEntries(members: seq<Member>): (r: seq<Result<(int, string), Exception>>)
    ensures |r| == |members| && forall i :: 0 <= i < |members| ==> r[i] == BuiltinEntry(members[i])
  {
    seq(|members|, i requires 0 <= i < |members| => BuiltinEntry(members[i]))
  }

  /** _builtinsMap: id -> name. */
  function BuiltinIdMap(members: seq<Member>): Result<map<int, string>, Exception>
  {
    AddAll(map[], BuiltinEntries(members))
  }

  /**
   * The id -> name map is the inverse of the module's name -> id metadata: it
   * exists exactly when every id is an Int32 and no id is listed twice, and
   * then maps each listed id to its name and nothing else.
   */
  lemma BuiltinIdMapInverts(members: seq<Member>)
    ensures BuiltinIdMap(members).Success? <==>
      (forall i :: 0 <= i < |members| ==> IsInt32(members[i].1))
      && (forall i, j :: 0 <= i < j < |members| ==> members[i].1 != members[j].1)
    ensures BuiltinIdMap(members).Success? ==>
      var m := BuiltinIdMap(members).value;
      && (forall i :: 0 <= i < |members| ==> members[i].1 in m && m[members[i].1] == members[i].0)
      && (forall id :: id in m ==> exists i :: 0 <= i < |members| && members[i] == (m[id], id))
  {
    var entries := BuiltinEntries(members);
    AddAllSucceeds(map[], entries);
    if BuiltinIdMap(members).Success? {
      AddAllContents(map[], entries);
      var m := BuiltinIdMap(members).value;
      forall id | id in m ensures exists i :: 0 <= i < |members| && members[i] == (m[id], id) {
        var i :| 0 <= i < |entries| && entries[i] == Success((id, m[id]));
        assert members[i] == (m[id], id);
      }
    }
  }

  /** One member of the entrypoints metadata as ParseEntryPointsJson adds it. */
  function EntrypointEntry(m: Member): (r: Result<(string, int), Exception>)
    ensures r.Success? <==> IsInt32(m.1)
    ensures r.Success? ==> r.value == m
  {
    match GetInt32(m.1) case Failure(e) => Failure(e) case Success(id) => Success((m.0, id))
  }

  /** The entrypoints metadata, name -> id. */
  function EntrypointEntries(members: seq<Member>): (r: seq<Result<(string, int), Exception>>)
    ensures |r| == |members| && forall i :: 0 <= i < |members| ==> r[i] == EntrypointEntry(members[i])
  {
    seq(|members|, i requires 0 <= i < |members| => EntrypointEntry(members[i]))
  }

  /** The entrypoint table exists exactly when the ids are Int32 and no name comes twice, and lists exactly the members. */
  lemma EntrypointTableContents(members: seq<Member>)
    ensures AddAll(map[], EntrypointEntries(members)).Success? <==>
      (forall i :: 0 <= i < |members| ==> IsInt32(members[i].1))
      && (forall i, j :: 0 <= i < j < |members| ==> members[i].0 != members[j].0)
    ensures AddAll(map[], EntrypointEntries(members)).Success? ==>
      var t := AddAll(map[], EntrypointEntries(members)).value;
      && (forall i :: 0 <= i < |members| ==> members[i].0 in t && t[members[i].0] == members[i].1)
      && (forall name :: name in t ==> exists i :: 0 <= i < |members| && members[i] == (name, t[name]))
  {
    var entries := EntrypointEntries(members);
    AddAllSucceeds(map[], entries);
    if AddAll(map[], entries).Success? {
      AddAllContents(map[], entries);
      var t := AddAll(map[], entries).value;
      forall name | name in t ensures exists i :: 0 <= i < |members| && members[i] == (name, t[name]) {
        var i :| 0 <= i < |entries| && entries[i] == Success((name, t[name]));
        assert members[i] == (name, t[name]);
      }
    }
  }

  /**
   * ParseEntryPointsJson: the members of the entrypoints object added one by
   * one to a new dictionary.
   */
  method ParseEntryPoints(members: seq<Member>) returns (r: Result<map<string, int>, Exception>)
    ensures r == AddAll(map[], EntrypointEntries(members))
  {
    var entries := EntrypointEntries(members);
    var table: map<string, int> := map[];
    var i := 0;
    while i < |members|
      invariant 0 <= i <= |members|
      invariant AddAll(table, entries[i..]) == AddAll(map[], entries)
    {
      var (name, number) := members[i];
      var id := GetInt32(number);
      if id.Failure? {
        return Failure(id.error);
      }
      if name in table {
        return Failure(ArgumentException);
      }
      assert entries[i] == Success((name, id.value)) && entries[i..][1..] == entries[i + 1..];
      table := table[name := id.value];
      i := i + 1;
    }
    assert entries[i..] == [];
    r := Success(table);
  }

  /**
   * A builtin as the registry knows it: its number of parameters; reject(i, text),
   * the exception JsonSerializer.Deserialize throws for parameter i on the
   * argument's JSON text (None when it deserializes); and invoke, the method
   * called on the arguments with its result serialized back to JSON.
   */
  datatype Builtin = Builtin(
    arity: nat,
    reject: (nat, string) -> Option<Exception>,
    invoke: seq<string> -> Result<string, Exception>)

  /**
   * The argument loop of CallBuiltin over addrs: each address is dumped and its
   * text deserialized in turn, and the first one rejected ends the loop. The
   * argument texts or that exception, the heap pointer left, and how many
   * addresses were dumped.
   */
  function DumpArguments(e: Engine, b: Builtin, addrs: seq<nat>, heap: nat): (Result<seq<string>, Exception>, nat, nat)
    decreases |addrs|
  {
    if addrs == [] then (Success([]), heap, 0)
    else
      var (prev, h, n) := DumpArguments(e, b, addrs[..|addrs| - 1], heap);
      match prev
      case Failure(x) => (Failure(x), h, n)
      case Success(args) =>
        var (text, h') := e.dump(addrs[|addrs| - 1], h);
        match b.reject(|addrs| - 1, text)
        case Some(x) => (Failure(x), h', n + 1)
        case None => (Success(args + [text]), h', n + 1)
  }

  /** No argument text is rejected by its parameter. */
  predicate Accepted(b: Builtin, texts: seq<string>)
  {
    forall i :: 0 <= i < |texts| ==> b.reject(i, texts[i]).None?
  }

  /**
   * The argument loop succeeds exactly when no dumped text is rejected, and
   * then it has dumped every address, giving DumpAll's texts and heap pointer.
   */
  lemma {:induction false} DumpArgumentsAgree(e: Engine, b: Builtin, addrs: seq<nat>, heap: nat)
    ensures DumpArguments(e, b, addrs, heap).0.Success? <==> Accepted(b, DumpAll(e, addrs, heap).0)
    ensures DumpArguments(e, b, addrs, heap).0.Success? ==>
      && DumpArguments(e, b, addrs, heap).0.value == DumpAll(e, addrs, heap).0
      && DumpArguments(e, b, addrs, heap).1 == DumpAll(e, addrs, heap).1
      && DumpArguments(e, b, addrs, heap).2 == |addrs|
    ensures DumpArguments(e, b, addrs, heap).2 <= |addrs|
    decreases |addrs|
  {
    if addrs != [] {
      var init := addrs[..|addrs| - 1];
      DumpArgumentsAgree(e, b, init, heap);
      var all := DumpAll(e, addrs, heap).0;
      var before := DumpAll(e, init, heap).0;
      var last := |addrs| - 1;
      assert all == before + [e.dump(addrs[last], DumpAll(e, init, heap).1).0];
      assert Accepted(b, all) <==> Accepted(b, before) && b.reject(last, all[last]).None? by {
        if Accepted(b, before) && b.reject(last, all[last]).None? {
          forall i | 0 <= i < |all| ensures b.reject(i, all[i]).None? {
            if i < last {
              assert all[i] == before[i];
            }
          }
        }
        if Accepted(b, all) {
          forall i | 0 <= i < |before| ensures b.reject(i, before[i]).None? {
            assert all[i] == before[i];
          }
        }
      }
    }
  }

  /** Once the loop has stopped on a rejected argument, later addresses change nothing. */
  lemma {:induction false} DumpArgumentsStops(e: Engine, b: Builtin, addrs: seq<nat>, k: nat, heap: nat)
    requires k <= |addrs| && DumpArguments(e, b, addrs[..k], heap).0.Failure?
    ensures DumpArguments(e, b, addrs, heap) == DumpArguments(e, b, addrs[..k], heap)
    decreases |addrs|
  {
    if k == |addrs| {
      assert addrs[..k] == addrs;
    } else {
      var init := addrs[..|addrs| - 1];
      assert init[..k] == addrs[..k];
      DumpArgumentsStops(e, b, init, k, heap);
    }
  }

  /**
   * What an evaluation through an evaluation context yields, with the heap
   * pointer at dataHeap to start with: the input is loaded, a context bound to
   * it, to the data at data and, when given, to the entrypoint is evaluated,
   * and the result is dumped. The result and the heap pointer it leaves.
   */
  function Evaluation(e: Engine, dataHeap: nat, data: nat, json: string, entrypoint: Option<int>)
    : (Result<string, Exception>, nat)
  {
    var (input, h) := Load(e, dataHeap, json);
    if input == 0 then (Failure(ArgumentNull), h)
    else
      var (result, h') := e.eval(EvalContext(input, data, entrypoint, 0), h + e.contextSize);
      var (text, h'') := e.dump(result, h');
      (Success(text), h'')
  }

  /** The text of the builtins metadata, dumped with the heap pointer at heap. */
  function BuiltinsText(e: Engine, heap: nat): string
  {
    e.dump(e.builtinsAddr, heap).0
  }

  /** The initial data document "{}", loaded after the builtins metadata was dumped: its address and the heap pointer after it. */
  function InitialData(e: Engine, heap: nat): (nat, nat)
  {
    Load(e, e.dump(e.builtinsAddr, heap).1, "{}")
  }

  /** The text of the entrypoints metadata, dumped once the initial data is loaded. */
  function EntrypointsText(e: Engine, heap: nat): string
  {
    e.dump(e.entrypointsAddr, InitialData(e, heap).1).0
  }

  /** The fields Initialize sets: the id -> name map, the data address, both watermarks, the entrypoint table. */
  datatype InitialState = InitialState(builtinsMap: map<int, string>, dataAddr: nat, heapPtr: nat,
                                       entrypoints: map<string, int>)

  /**
   * Initialize from the heap pointer heap, step by step: the builtins
   * metadata is read with default options and turned round, "{}" is loaded,
   * the entrypoints metadata is read allowing trailing commas, and the ABI
   * version is checked. The first step that throws ends it.
   */
  function Initialization(e: Engine, objectMembers: ObjectReader, heap: nat): Result<InitialState, Exception>
  {
    var builtins :- objectMembers(BuiltinsText(e, heap), false);
    var ids :- BuiltinIdMap(builtins);
    var (addr, h) := InitialData(e, heap);
    if addr == 0 then Failure(ArgumentNull)
    else
      var members :- objectMembers(EntrypointsText(e, heap), true);
      var table :- AddAll(map[], EntrypointEntries(members));
      if e.abiVersion.Some? && e.abiVersion.value != 1 then Failure(BadImageFormat)
      else Success(InitialState(ids, addr, h, table))
  }

  /**
   * Initialization succeeds exactly when both metadata objects parse, the
   * builtin ids are distinct Int32s, the entrypoint names are distinct with
   * Int32 ids, "{}" loads and the major ABI version, when there is one, is 1.
   * The maps it builds then hold exactly the metadata's members.
   */
  lemma InitializationSucceeds(e: Engine, objectMembers: ObjectReader, heap: nat)
    ensures var init := Initialization(e, objectMembers, heap);
      var builtins := objectMembers(BuiltinsText(e, heap), false);
      var entries := objectMembers(EntrypointsText(e, heap), true);
      init.Success? <==>
        && builtins.Success?
        && (forall i :: 0 <= i < |builtins.value| ==> IsInt32(builtins.value[i].1))
        && (forall i, j :: 0 <= i < j < |builtins.value| ==> builtins.value[i].1 != builtins.value[j].1)
        && InitialData(e, heap).0 != 0
        && entries.Success?
        && (forall i :: 0 <= i < |entries.value| ==> IsInt32(entries.value[i].1))
        && (forall i, j :: 0 <= i < j < |entries.value| ==> entries.value[i].0 != entries.value[j].0)
        && (e.abiVersion.Some? ==> e.abiVersion.value == 1)
    ensures var init := Initialization(e, objectMembers, heap);
      var builtins := objectMembers(BuiltinsText(e, heap), false);
      var entries := objectMembers(EntrypointsText(e, heap), true);
      init.Success? ==>
        && init.value.dataAddr == InitialData(e, heap).0 && init.value.heapPtr == InitialData(e, heap).1
        && (forall i :: 0 <= i < |builtins.value| ==>
              builtins.value[i].1 in init.value.builtinsMap && init.value.builtinsMap[builtins.value[i].1] == builtins.value[i].0)
        && (forall i :: 0 <= i < |entries.value| ==>
              entries.value[i].0 in init.value.entrypoints && init.value.entrypoints[entries.value[i].0] == entries.value[i].1)
  {
    var builtins := objectMembers(BuiltinsText(e, heap), false);
    var entries := objectMembers(EntrypointsText(e, heap), true);
    if builtins.Success? {
      BuiltinIdMapInverts(builtins.value);
    }
    if entries.Success? {
      EntrypointTableContents(entries.value);
    }
  }

  /**
   * Which exception Initialization throws: the builtins metadata's first,
   * then BuiltinIdMap's, then ArgumentNull when "{}" does not load, then the
   * entrypoints metadata's, then the entry table's, and BadImageFormat for a
   * major ABI version other than 1 only once everything else has succeeded.
   */
  lemma InitializationFailures(e: Engine, objectMembers: ObjectReader, heap: nat)
    ensures var builtins := objectMembers(BuiltinsText(e, heap), false);
      builtins.Failure? ==> Initialization(e, objectMembers, heap) == Failure(builtins.error)
    ensures var builtins := objectMembers(BuiltinsText(e, heap), false);
      builtins.Success? && BuiltinIdMap(builtins.value).Success? && InitialData(e, heap).0 == 0 ==>
        Initialization(e, objectMembers, heap) == Failure(ArgumentNull)
    ensures var builtins := objectMembers(BuiltinsText(e, heap), false);
      var entries := objectMembers(EntrypointsText(e, heap), true);
      builtins.Success? && BuiltinIdMap(builtins.value).Success? && InitialData(e, heap).0 != 0 && entries.Success?
      && AddAll(map[], EntrypointEntries(entries.value)).Success? ==>
        (Initialization(e, objectMembers, heap).Failure? <==> e.abiVersion.Some? && e.abiVersion.value != 1)
        && (Initialization(e, objectMembers, heap).Failure? ==> Initialization(e, objectMembers, heap).error == BadImageFormat)
    ensures var builtins := objectMembers(BuiltinsText(e, heap), false);
      builtins.Success? && BuiltinIdMap(builtins.value).Failure? ==>
        Initialization(e, objectMembers, heap) == Failure(BuiltinIdMap(builtins.value).error)
    ensures var builtins := objectMembers(BuiltinsText(e, heap), false);
      var entries := objectMembers(EntrypointsText(e, heap), true);
      builtins.Success? && BuiltinIdMap(builtins.value).Success? && InitialData(e, heap).0 != 0 && entries.Failure? ==>
        Initialization(e, objectMembers, heap) == Failure(entries.error)
    ensures var builtins := objectMembers(BuiltinsText(e, heap), false);
      var entries := objectMembers(EntrypointsText(e, heap), true);
      builtins.Success? && BuiltinIdMap(builtins.value).Success? && InitialData(e, heap).0 != 0 && entries.Success?
      && AddAll(map[], EntrypointEntries(entries.value)).Failure? ==>
        Initialization(e, objectMembers, heap) == Failure(AddAll(map[], EntrypointEntries(entries.value)).error)
  {
  }

  /** Some element of a non-empty set, as an enumeration would produce first. */
  method Element(s: set<int>) returns (x: int)
    requires s != {}
    ensures x in s
  {
    if forall y :: y !in s {
      assert false;
    }
    x :| x in s;
  }

  /** The outcome LoadJson reports for a parsed address. */
  function Parsed(addr: nat): Result<nat, Exception>
  {
    if addr == 0 then Failure(ArgumentNull) else Success(addr)
  }

  class OpaPolicy {
    const sandbox: Instance
    /** Builtins.Lookup's table: name -> builtin. */
    const registry: map<string, Builtin>
    /** JsonDocument.Parse followed by EnumerateObject. */
    const objectMembers: ObjectReader

    var dataAddr: nat
    var baseHeapPtr: nat
    var dataHeapPtr: nat
    var builtinsMap: map<int, string>
    var entrypoints: map<string, int>
    var abiVersion: Option<int>
    var abiMinorVersion: Option<int>

    /** The state after a successful initialization, kept by every operation. */
    ghost predicate Valid()
      reads this
    {
      && Monotone(sandbox.engine)
      && baseHeapPtr <= dataHeapPtr
      && dataAddr != 0
      && (abiVersion.Some? ==> abiVersion.value == 1)
    }

    /** The fields as they are before Initialize runs. */
    constructor(sandbox: Instance, registry: map<string, Builtin>, objectMembers: ObjectReader)
      ensures this.sandbox == sandbox && this.registry == registry && this.objectMembers == objectMembers
      ensures dataAddr == 0 && baseHeapPtr == 0 && dataHeapPtr == 0
      ensures builtinsMap == map[] && entrypoints == map[] && abiVersion.None? && abiMinorVersion.None?
    {
      this.sandbox := sandbox;
      this.registry := registry;
      this.objectMembers := objectMembers;
      dataAddr, baseHeapPtr, dataHeapPtr := 0, 0, 0;
      builtinsMap, entrypoints := map[], map[];
      abiVersion, abiMinorVersion := None, None;
    }

    /**
     * Loads a JSON text: allocates exactly |json| bytes, writes the text there
     * and parses it; a parse that returns address 0 throws.
     */
    method LoadJson(json: string) returns (r: Result<nat, Exception>)
      modifies sandbox
      ensures var (addr, h) := Load(sandbox.engine, old(sandbox.heapPtr), json);
        r == Parsed(addr) && sandbox.heapPtr == h
      ensures sandbox.memory == old(sandbox.memory)[old(sandbox.heapPtr) := json]
      ensures sandbox.contexts == old(sandbox.contexts) && sandbox.dumped == old(sandbox.dumped)
    {
      var addr := sandbox.Malloc(|json|);
      sandbox.WriteString(addr, json);
      assert json[..|json|] == json;
      var parsed := sandbox.JsonParse(addr, |json|);
      r := Parsed(parsed);
    }

    /**
     * The ABI version gate: a major version other than 1 throws; version 1 is
     * recorded, and an absent one leaves AbiVersion null. The minor version is
     * recorded as it is when the module defines it.
     */
    method ReadAbiVersionGlobals() returns (r: Result<(), Exception>)
      modifies this`abiVersion, this`abiMinorVersion
      ensures var major := sandbox.engine.abiVersion;
        if major.Some? && major.value != 1 then
          r == Failure(BadImageFormat) && abiVersion == old(abiVersion) && abiMinorVersion == old(abiMinorVersion)
        else
          && r == Success(())
          && abiVersion == (if major.Some? then Some(1) else old(abiVersion))
          && abiMinorVersion == (if sandbox.engine.abiMinorVersion.Some? then sandbox.engine.abiMinorVersion else old(abiMinorVersion))
    {
      var major := sandbox.engine.abiVersion;
      if major.Some? {
        if major.value != 1 {
          return Failure(BadImageFormat);
        }
        abiVersion := major;
      }
      var minor := sandbox.engine.abiMinorVersion;
      if minor.Some? {
        abiMinorVersion := minor;
      }
      r := Success(());
    }

    /** The builtins metadata, dumped, read with default options and turned round into the id -> name map. */
    method ReadBuiltins() returns (r: Result<(), Exception>)
      modifies this`builtinsMap, sandbox
      ensures sandbox.heapPtr == sandbox.engine.dump(sandbox.engine.builtinsAddr, old(sandbox.heapPtr)).1
      ensures var builtins := objectMembers(BuiltinsText(sandbox.engine, old(sandbox.heapPtr)), false);
        && r == (match builtins case Failure(e) => Failure(e) case Success(members) =>
             match BuiltinIdMap(members) case Failure(e) => Failure(e) case Success(_) => Success(()))
        && (r.Success? ==> BuiltinIdMap(builtins.value) == Success(builtinsMap))
    {
      var text := sandbox.JsonDump(sandbox.engine.builtinsAddr);
      var members := objectMembers(text, false);
      if members.Failure? {
        return Failure(members.error);
      }
      var ids := BuiltinIdMap(members.value);
      if ids.Failure? {
        return Failure(ids.error);
      }
      builtinsMap := ids.value;
      r := Success(());
    }

    /**
     * Loads "{}" as the data document and sets both watermarks to the heap
     * pointer that leaves.
     */
    method LoadInitialData() returns (r: Result<(), Exception>)
      requires Monotone(sandbox.engine)
      modifies this`dataAddr, this`baseHeapPtr, this`dataHeapPtr, sandbox
      ensures var (addr, heap) := Load(sandbox.engine, old(sandbox.heapPtr), "{}");
        && r == (if addr == 0 then Failure(ArgumentNull) else Success(()))
        && sandbox.heapPtr == heap
        && (r.Success? ==> dataAddr == addr && baseHeapPtr == heap && dataHeapPtr == heap)
    {
      ghost var h := sandbox.heapPtr;
      var data := LoadJson("{}");
      if data.Failure? {
        return Failure(data.error);
      }
      dataAddr := data.value;
      LoadAdvances(sandbox.engine, h, "{}");
      baseHeapPtr := sandbox.HeapPtrGet();
      dataHeapPtr := baseHeapPtr;
      r := Success(());
    }

    /**
     * ParseEntryPointsJson: the text of the entrypoints metadata read as an
     * object, trailing commas allowed, whose members are added one by one to
     * a new dictionary.
     */
    method ParseEntryPointsJson(json: string) returns (r: Result<map<string, int>, Exception>)
      ensures r == match objectMembers(json, true) case Failure(e) => Failure(e) case Success(members) =>
        AddAll(map[], EntrypointEntries(members))
    {
      var members := objectMembers(json, true);
      if members.Failure? {
        return Failure(members.error);
      }
      r := ParseEntryPoints(members.value);
    }

    /**
     * Reads the builtins metadata into the id -> name map, loads "{}" as the
     * initial data, sets both watermarks to the heap pointer that leaves, then
     * reads the entrypoints metadata and the ABI version.
     */
    method Initialize() returns (r: Result<(), Exception>)
      requires Monotone(sandbox.engine) && abiVersion.None? && abiMinorVersion.None?
      modifies this, sandbox
      ensures r.Success? ==> Valid()
      ensures r.Success? ==> var builtins := objectMembers(BuiltinsText(sandbox.engine, old(sandbox.heapPtr)), false);
        builtins.Success? && BuiltinIdMap(builtins.value) == Success(builtinsMap)
      ensures r.Success? ==> var (addr, heap) := InitialData(sandbox.engine, old(sandbox.heapPtr));
        dataAddr == addr && baseHeapPtr == heap && dataHeapPtr == heap
      ensures r.Success? ==> abiVersion == sandbox.engine.abiVersion && abiMinorVersion == sandbox.engine.abiMinorVersion
      ensures var init := Initialization(sandbox.engine, objectMembers, old(sandbox.heapPtr));
        && (r.Success? <==> init.Success?)
        && (r.Failure? ==> r.error == init.error)
        && (r.Success? ==>
              && builtinsMap == init.value.builtinsMap && dataAddr == init.value.dataAddr
              && baseHeapPtr == init.value.heapPtr && dataHeapPtr == init.value.heapPtr
              && entrypoints == init.value.entrypoints)
    {
      var builtins := ReadBuiltins();
      if builtins.Failure? {
        return builtins;
      }
      var data := LoadInitialData();
      if data.Failure? {
        return data;
      }
      var text := sandbox.JsonDump(sandbox.engine.entrypointsAddr);
      var table := ParseEntryPointsJson(text);
      if table.Failure? {
        return Failure(table.error);
      }
      entrypoints := table.value;
      r := ReadAbiVersionGlobals();
    }

    /**
     * Replaces the data document: the heap pointer goes back to baseHeapPtr,
     * the document is loaded there, and dataHeapPtr becomes the heap pointer
     * the load leaves. When the document does not parse, the watermarks and
     * the data address stay as they were.
     */
    method SetData(json: string) returns (r: Result<(), Exception>)
      requires Valid()
      modifies this`dataAddr, this`dataHeapPtr, sandbox
      ensures Valid()
      ensures var (addr, h) := Load(sandbox.engine, baseHeapPtr, json);
        && sandbox.heapPtr == h
        && (addr == 0 ==> r == Failure(ArgumentNull) && dataAddr == old(dataAddr) && dataHeapPtr == old(dataHeapPtr))
        && (addr != 0 ==> r == Success(()) && dataAddr == addr && dataHeapPtr == h)
    {
      sandbox.HeapPtrSet(baseHeapPtr);
      var data := LoadJson(json);
      LoadAdvances(sandbox.engine, baseHeapPtr, json);
      if data.Failure? {
        return Failure(data.error);
      }
      dataAddr := data.value;
      dataHeapPtr := sandbox.HeapPtrGet();
      r := Success(());
    }

    /**
     * One evaluation: the heap pointer goes back to dataHeapPtr, the input is
     * loaded, and a new context bound to it, to dataAddr and, when one is
     * given, to the entrypoint is evaluated; its result is dumped. The
     * policy's own fields are not touched, so the next evaluation starts from
     * the same heap pointer.
     */
    method ExecuteEvaluate(json: string, entrypoint: Option<int>) returns (r: Result<string, Exception>)
      requires Valid()
      modifies sandbox
      ensures (r, sandbox.heapPtr) == Evaluation(sandbox.engine, dataHeapPtr, dataAddr, json, entrypoint)
    {
      sandbox.HeapPtrSet(dataHeapPtr);
      var input := LoadJson(json);
      if input.Failure? {
        return Failure(input.error);
      }
      var ctx := sandbox.EvalCtxNew();
      sandbox.EvalCtxSetInput(ctx, input.value);
      sandbox.EvalCtxSetData(ctx, dataAddr);
      if entrypoint.Some? {
        sandbox.EvalCtxSetEntrypoint(ctx, entrypoint.value);
      }
      assert sandbox.contexts[ctx] == EvalContext(input.value, dataAddr, entrypoint, 0);
      sandbox.Eval(ctx);
      var result := sandbox.EvalCtxGetResult(ctx);
      var text := sandbox.JsonDump(result);
      r := Success(text);
    }

    /** Evaluate(json): the module's default entrypoint. */
    method Evaluate(json: string) returns (r: Result<string, Exception>)
      requires Valid()
      modifies sandbox
      ensures (r, sandbox.heapPtr) == Evaluation(sandbox.engine, dataHeapPtr, dataAddr, json, None)
    {
      r := ExecuteEvaluate(json, None);
    }

    /** Evaluate(json, int): the id must be one of the entrypoint table's ids. */
    method EvaluateById(json: string, entrypoint: int) returns (r: Result<string, Exception>)
      requires Valid()
      modifies sandbox
      ensures entrypoint !in entrypoints.Values ==> r == Failure(ArgumentOutOfRange) && sandbox.heapPtr == old(sandbox.heapPtr)
      ensures entrypoint in entrypoints.Values ==>
        (r, sandbox.heapPtr) == Evaluation(sandbox.engine, dataHeapPtr, dataAddr, json, Some(entrypoint))
    {
      var values := entrypoints.Values;
      ghost var seen: set<int> := {};
      var found := false;
      while values != {}
        invariant values !! seen && values + seen == entrypoints.Values
        invariant entrypoint !in seen && !found
        modifies {}
        decreases |values|
      {
        var id := Element(values);
        if id == entrypoint {
          found := true;
          break;
        }
        values, seen := values - {id}, seen + {id};
      }
      if !found {
        return Failure(ArgumentOutOfRange);
      }
      r := ExecuteEvaluate(json, Some(entrypoint));
    }

    /** Evaluate(json, string): the name is looked up in the entrypoint table and its id is evaluated. */
    method EvaluateByName(json: string, entrypoint: string) returns (r: Result<string, Exception>)
      requires Valid()
      modifies sandbox
      ensures entrypoint !in entrypoints ==> r == Failure(ArgumentOutOfRange) && sandbox.heapPtr == old(sandbox.heapPtr)
      ensures entrypoint in entrypoints ==>
        (r, sandbox.heapPtr) == Evaluation(sandbox.engine, dataHeapPtr, dataAddr, json, Some(entrypoints[entrypoint]))
    {
      if entrypoint !in entrypoints {
        return Failure(ArgumentOutOfRange);
      }
      r := ExecuteEvaluate(json, Some(entrypoints[entrypoint]));
    }

    /**
     * The fast path: the input text is written at dataHeapPtr and opa_eval
     * runs on it with the heap starting right after it. The watermarks do
     * not move.
     */
    method FastEvaluate(json: string) returns (r: string)
      requires Valid()
      modifies sandbox
      ensures sandbox.memory == old(sandbox.memory)[dataHeapPtr := json]
      ensures (r, sandbox.heapPtr) == sandbox.engine.opaEval(dataAddr, json, dataHeapPtr + |json|)
    {
      sandbox.WriteString(dataHeapPtr, json);
      assert json[..|json|] == json;
      r := sandbox.OpaEval(dataAddr, dataHeapPtr, |json|, dataHeapPtr + |json|);
    }

    /** The argument loop of CallBuiltin: each address dumped and its text deserialized in turn. */
    method ReadArguments(b: Builtin, addrs: seq<nat>) returns (r: Result<seq<string>, Exception>)
      requires |addrs| == b.arity
      modifies sandbox
      ensures var (args, h, n) := DumpArguments(sandbox.engine, b, addrs, old(sandbox.heapPtr));
        r == args && sandbox.heapPtr == h && n <= |addrs| && sandbox.dumped == old(sandbox.dumped) + addrs[..n]
      ensures sandbox.memory == old(sandbox.memory) && sandbox.contexts == old(sandbox.contexts)
    {
      ghost var heap := sandbox.heapPtr;
      DumpArgumentsAgree(sandbox.engine, b, addrs, heap);
      var arguments: seq<string> := [];
      for i := 0 to b.arity
        invariant DumpArguments(sandbox.engine, b, addrs[..i], heap) == (Success(arguments), sandbox.heapPtr, i)
        invariant sandbox.dumped == old(sandbox.dumped) + addrs[..i]
        invariant sandbox.memory == old(sandbox.memory) && sandbox.contexts == old(sandbox.contexts)
      {
        var arg := sandbox.JsonDump(addrs[i]);
        assert addrs[..i + 1][..i] == addrs[..i] && addrs[..i + 1] == addrs[..i] + [addrs[i]];
        var rejected := b.reject(i, arg);
        if rejected.Some? {
          DumpArgumentsStops(sandbox.engine, b, addrs, i + 1, heap);
          return Failure(rejected.value);
        }
        arguments := arguments + [arg];
      }
      assert addrs[..b.arity] == addrs;
      r := Success(arguments);
    }

    /**
     * A builtin call from the policy: the id is resolved to a name and the
     * name to a builtin, which must not need more arguments than were passed;
     * for each of its parameters in turn the argument is dumped and
     * deserialized, then the builtin is invoked and its serialized result
     * loaded.
     */
    method CallBuiltin(builtinId: int, argAddrs: seq<nat>) returns (r: Result<nat, Exception>)
      requires Valid()
      modifies sandbox
      ensures builtinId !in builtinsMap ==> r == Failure(KeyNotFound) && sandbox.heapPtr == old(sandbox.heapPtr)
      ensures builtinId in builtinsMap && builtinsMap[builtinId] !in registry ==>
        r == Failure(InvalidOperation) && sandbox.heapPtr == old(sandbox.heapPtr)
      ensures builtinId in builtinsMap && builtinsMap[builtinId] in registry ==>
        var b := registry[builtinsMap[builtinId]];
        if b.arity > |argAddrs| then
          r == Failure(ArgumentException) && sandbox.heapPtr == old(sandbox.heapPtr) && sandbox.dumped == old(sandbox.dumped)
        else
          var (args, h, n) := DumpArguments(sandbox.engine, b, argAddrs[..b.arity], old(sandbox.heapPtr));
          && n <= b.arity
          && sandbox.dumped == old(sandbox.dumped) + argAddrs[..n]
          && match args
             case Failure(x) => r == Failure(x) && sandbox.heapPtr == h
             case Success(texts) =>
               && n == b.arity
               && match b.invoke(texts)
               case Failure(x) => r == Failure(x) && sandbox.heapPtr == h
               case Success(text) => r == Parsed(Load(sandbox.engine, h, text).0) && sandbox.heapPtr == Load(sandbox.engine, h, text).1
    {
      if builtinId !in builtinsMap {
        return Failure(KeyNotFound);
      }
      var name := builtinsMap[builtinId];
      if name !in registry {
        return Failure(InvalidOperation);
      }
      var b := registry[name];
      if b.arity > |argAddrs| {
        return Failure(ArgumentException);
      }
      DumpArgumentsAgree(sandbox.engine, b, argAddrs[..b.arity], sandbox.heapPtr);
      var arguments :- ReadArguments(b, argAddrs[..b.arity]);
      var result :- b.invoke(arguments);
      r := LoadJson(result);
    }
  }

  /** The public constructors: a policy comes back only once Initialize has succeeded. */
  method Open(sandbox: Instance, registry: map<string, Builtin>, objectMembers: ObjectReader)
    returns (r: Result<OpaPolicy, Exception>)
    requires Monotone(sandbox.engine)
    modifies sandbox
    ensures r.Success? ==> fresh(r.value) && r.value.Valid() && r.value.sandbox == sandbox
    ensures sandbox.engine.abiVersion.Some? && sandbox.engine.abiVersion.value != 1 ==> r.Failure?
    ensures var init := Initialization(sandbox.engine, objectMembers, old(sandbox.heapPtr));
      && (r.Success? <==> init.Success?)
      && (r.Failure? ==> r.error == init.error)
      && (r.Success? ==>
            && r.value.builtinsMap == init.value.builtinsMap && r.value.dataAddr == init.value.dataAddr
            && r.value.baseHeapPtr == init.value.heapPtr && r.value.dataHeapPtr == init.value.heapPtr
            && r.value.entrypoints == init.value.entrypoints)
    ensures r.Success? ==>
      && r.value.registry == registry && r.value.objectMembers == objectMembers
      && r.value.abiVersion == sandbox.engine.abiVersion && r.value.abiMinorVersion == sandbox.engine.abiMinorVersion
  {
    var p := new OpaPolicy(sandbox, registry, objectMembers);
    var init := p.Initialize();
    if init.Failure? {
      return Failure(init.error);
    }
    r := Success(p);
  }

  /**
   * Loading the same document twice: the second load fails or succeeds as
   * the first did, and leaves the data address and the watermark (addr and
   * heap, as the first load set them) where the first put them.
   */
  method SetDataIdempotent(p: OpaPolicy, json: string)
    returns (first: Result<(), Exception>, second: Result<(), Exception>, addr: nat, heap: nat)
    requires p.Valid()
    modifies p`dataAddr, p`dataHeapPtr, p.sandbox
    ensures first == second && p.Valid()
    ensures p.dataAddr == addr && p.dataHeapPtr == heap
    ensures first.Success? ==> (addr, heap) == Load(p.sandbox.engine, p.baseHeapPtr, json)
    ensures first.Failure? ==> addr == old(p.dataAddr) && heap == old(p.dataHeapPtr)
    ensures p.baseHeapPtr == old(p.baseHeapPtr)
  {
    first := p.SetData(json);
    addr, heap := p.dataAddr, p.dataHeapPtr;
    second := p.SetData(json);
  }

  /**
   * Two evaluations in a row: the second yields what it would have yielded on
   * its own, since nothing the first allocated is visible to it.
   */
  method EvaluateTwice(p: OpaPolicy, a: string, b: string)
    returns (first: Result<string, Exception>, second: Result<string, Exception>)
    requires p.Valid()
    modifies p.sandbox
    ensures (second, p.sandbox.heapPtr) == Evaluation(p.sandbox.engine, p.dataHeapPtr, p.dataAddr, b, None)
    ensures p.dataHeapPtr == old(p.dataHeapPtr) && p.baseHeapPtr == old(p.baseHeapPtr) && p.dataAddr == old(p.dataAddr)
  {
    first := p.Evaluate(a);
    second := p.Evaluate(b);
  }

  /** Evaluating by an entrypoint's name and by the id the table maps it to gives the same result. */
  method EvaluateLookupsAgree(p: OpaPolicy, json: string, name: string)
    returns (byName: Result<string, Exception>, byId: Result<string, Exception>)
    requires p.Valid() && name in p.entrypoints
    modifies p.sandbox
    ensures byName == byId
  {
    byName := p.EvaluateByName(json, name);
    byId := p.EvaluateById(json, p.entrypoints[name]);
  }
}
