/**
 * The instantiated policy module, as the host sees it through its exports.
 * What the compiled policy computes is given by an Engine: each export is a
 * function of what it is handed and of the heap pointer it starts from, and
 * returns the heap pointer it leaves behind. The only thing the host relies
 * on is that the exports allocate by advancing the heap pointer, never by
 * moving it back (Monotone); opa_malloc is the bump allocator itself.
 */
module Sandbox {
  import opened Wrappers

  /** An evaluation context: input and data addresses, the entrypoint if one was set, and the result address. */
  datatype EvalContext = EvalContext(input: nat, data: nat, entrypoint: Option<int>, result: nat)

  /** The empty context opa_eval_ctx_new creates. */
  const NewContext := EvalContext(0, 0, None, 0)

  datatype Engine = Engine(
    // opa_json_parse: the text and the heap pointer -> the value's address (0 when parsing failed) and the heap pointer
    parse: (string, nat) -> (nat, nat),
    // opa_json_dump followed by reading the NUL-terminated text it wrote
    dump: (nat, nat) -> (string, nat),
    // the bytes opa_eval_ctx_new allocates for a context
    contextSize: nat,
    // eval: the context and the heap pointer -> the result address and the heap pointer
    eval: (EvalContext, nat) -> (nat, nat),
    // opa_eval: data address, input text, heap start -> the result text and the heap pointer
    opaEval: (nat, string, nat) -> (string, nat),
    // the builtins and entrypoints exports: the address of each metadata object
    builtinsAddr: nat,
    entrypointsAddr: nat,
    // the opa_wasm_abi_version and opa_wasm_abi_minor_version globals, when the module defines them
    abiVersion: Option<int>,
    abiMinorVersion: Option<int>)

  /** Every export leaves the heap pointer at or above where it found it. */
  ghost predicate Monotone(e: Engine)
  {
    && (forall t, h :: e.parse(t, h).1 >= h)
    && (forall a, h :: e.dump(a, h).1 >= h)
    && (forall c, h :: e.eval(c, h).1 >= h)
    && (forall d, t, h :: e.opaEval(d, t, h).1 >= h)
  }

  /**
   * Loading a JSON text with the heap pointer at heap: opa_malloc hands out
   * exactly |json| bytes at heap, the text is written there and parsed.
   * The parsed value's address (0 on failure) and the final heap pointer.
   */
  function Load(e: Engine, heap: nat, json: string): (nat, nat)
  {
    e.parse(json, heap + |json|)
  }

  /** A load leaves the heap pointer past the text it wrote. */
  lemma LoadAdvances(e: Engine, heap: nat, json: string)
    requires Monotone(e)
    ensures Load(e, heap, json).1 >= heap + |json|
  {
  }

  /** Dumping the values at addrs one after the other: their texts, in order, and the final heap pointer. */
  function DumpAll(e: Engine, addrs: seq<nat>, heap: nat): (r: (seq<string>, nat))
    ensures |r.0| == |addrs|
    decreases |addrs|
  {
    if addrs == [] then ([], heap)
    else
      var (texts, h) := DumpAll(e, addrs[..|addrs| - 1], heap);
      var (text, h') := e.dump(addrs[|addrs| - 1], h);
      (texts + [text], h')
  }

  /** Each text is the dump of its address after the ones before it, and the heap pointer only moves forward. */
  lemma {:induction false} DumpAllShape(e: Engine, addrs: seq<nat>, heap: nat)
    requires Monotone(e)
    ensures DumpAll(e, addrs, heap).1 >= heap
    ensures forall i :: 0 <= i < |addrs| ==>
      DumpAll(e, addrs, heap).0[i] == e.dump(addrs[i], DumpAll(e, addrs[..i], heap).1).0
    decreases |addrs|
  {
    if addrs != [] {
      var init := addrs[..|addrs| - 1];
      DumpAllShape(e, init, heap);
      forall i | 0 <= i < |addrs|
        ensures DumpAll(e, addrs, heap).0[i] == e.dump(addrs[i], DumpAll(e, addrs[..i], heap).1).0
      {
        if i < |addrs| - 1 {
          assert addrs[..i] == init[..i];
          assert addrs[i] == init[i];
        } else {
          assert addrs[..i] == init;
        }
      }
    }
  }

  /** The module instance: its heap pointer, the host's writes into memory, and its evaluation contexts. */
  class Instance {
    var heapPtr: nat
    /** Text the host wrote into linear memory, by address. */
    var memory: map<nat, string>
    var contexts: map<nat, EvalContext>
    /** The addresses dumped so far, in order. */
    ghost var dumped: seq<nat>
    const engine: Engine

    constructor(engine: Engine, heapPtr: nat)
      requires Monotone(engine)
      ensures this.engine == engine && this.heapPtr == heapPtr
      ensures memory == map[] && contexts == map[] && dumped == []
    {
      this.engine := engine;
      this.heapPtr := heapPtr;
      memory := map[];
      contexts := map[];
      dumped := [];
    }

    /** opa_heap_ptr_get. */
    method HeapPtrGet() returns (p: nat)
      ensures p == heapPtr
    {
      p := heapPtr;
    }

    /** opa_heap_ptr_set: the one export that may move the heap pointer back. */
    method HeapPtrSet(p: nat)
      modifies this
      ensures heapPtr == p
      ensures memory == old(memory) && contexts == old(contexts) && dumped == old(dumped)
    {
      heapPtr := p;
    }

    /** opa_malloc: n bytes at the heap pointer, which moves past them. */
    method Malloc(n: nat) returns (addr: nat)
      modifies this
      ensures addr == old(heapPtr) && heapPtr == old(heapPtr) + n
      ensures memory == old(memory) && contexts == old(contexts) && dumped == old(dumped)
    {
      addr := heapPtr;
      heapPtr := heapPtr + n;
    }

    /** The host writing a text into linear memory. */
    method WriteString(addr: nat, text: string)
      modifies this
      ensures memory == old(memory)[addr := text]
      ensures heapPtr == old(heapPtr) && contexts == old(contexts) && dumped == old(dumped)
    {
      memory := memory[addr := text];
    }

    /** opa_json_parse of the len bytes the host wrote at addr. */
    method JsonParse(addr: nat, len: nat) returns (value: nat)
      requires addr in memory && len <= |memory[addr]|
      modifies this
      ensures (value, heapPtr) == engine.parse(old(memory)[addr][..len], old(heapPtr))
      ensures memory == old(memory) && contexts == old(contexts) && dumped == old(dumped)
    {
      var (v, h) := engine.parse(memory[addr][..len], heapPtr);
      value, heapPtr := v, h;
    }

    /** DumpJson: opa_json_dump of the value at addr, read back as text. */
    method JsonDump(addr: nat) returns (text: string)
      modifies this
      ensures (text, heapPtr) == engine.dump(addr, old(heapPtr))
      ensures dumped == old(dumped) + [addr]
      ensures memory == old(memory) && contexts == old(contexts)
    {
      var (t, h) := engine.dump(addr, heapPtr);
      text, heapPtr := t, h;
      dumped := dumped + [addr];
    }

    /** opa_eval_ctx_new: a fresh context at the heap pointer. */
    method EvalCtxNew() returns (ctx: nat)
      modifies this
      ensures ctx == old(heapPtr) && heapPtr == old(heapPtr) + engine.contextSize
      ensures contexts == old(contexts)[ctx := NewContext]
      ensures memory == old(memory) && dumped == old(dumped)
    {
      ctx := heapPtr;
      heapPtr := heapPtr + engine.contextSize;
      contexts := contexts[ctx := NewContext];
    }

    /** opa_eval_ctx_set_input. */
    method EvalCtxSetInput(ctx: nat, input: nat)
      requires ctx in contexts
      modifies this
      ensures contexts == old(contexts)[ctx := old(contexts)[ctx].(input := input)]
      ensures heapPtr == old(heapPtr) && memory == old(memory) && dumped == old(dumped)
    {
      contexts := contexts[ctx := contexts[ctx].(input := input)];
    }

    /** opa_eval_ctx_set_data. */
    method EvalCtxSetData(ctx: nat, data: nat)
      requires ctx in contexts
      modifies this
      ensures contexts == old(contexts)[ctx := old(contexts)[ctx].(data := data)]
      ensures heapPtr == old(heapPtr) && memory == old(memory) && dumped == old(dumped)
    {
      contexts := contexts[ctx := contexts[ctx].(data := data)];
    }

    /** opa_eval_ctx_set_entrypoint. */
    method EvalCtxSetEntrypoint(ctx: nat, entrypoint: int)
      requires ctx in contexts
      modifies this
      ensures contexts == old(contexts)[ctx := old(contexts)[ctx].(entrypoint := Some(entrypoint))]
      ensures heapPtr == old(heapPtr) && memory == old(memory) && dumped == old(dumped)
    {
      contexts := contexts[ctx := contexts[ctx].(entrypoint := Some(entrypoint))];
    }

    /** eval: runs the policy on the context and stores the result address in it. */
    method Eval(ctx: nat)
      requires ctx in contexts
      modifies this
      ensures var (result, h) := engine.eval(old(contexts)[ctx], old(heapPtr));
        contexts == old(contexts)[ctx := old(contexts)[ctx].(result := result)] && heapPtr == h
      ensures memory == old(memory) && dumped == old(dumped)
    {
      var (result, h) := engine.eval(contexts[ctx], heapPtr);
      contexts := contexts[ctx := contexts[ctx].(result := result)];
      heapPtr := h;
    }

    /** opa_eval_ctx_get_result. */
    method EvalCtxGetResult(ctx: nat) returns (result: nat)
      requires ctx in contexts
      ensures result == contexts[ctx].result
    {
      result := contexts[ctx].result;
    }

    /**
     * opa_eval on the len bytes at input, with the given data address and heap
     * start, followed by reading the NUL-terminated result text.
     */
    method OpaEval(data: nat, input: nat, len: nat, heap: nat) returns (text: string)
      requires input in memory && len <= |memory[input]|
      modifies this
      ensures (text, heapPtr) == engine.opaEval(data, old(memory)[input][..len], heap)
      ensures memory == old(memory) && contexts == old(contexts) && dumped == old(dumped)
    {
      var (t, h) := engine.opaEval(data, memory[input][..len], heap);
      text, heapPtr := t, h;
    }
  }
}
