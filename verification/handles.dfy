/** The life of a native widget or terminal handle on the binding side:
    created by a native constructor and registered with a finaliser, then
    released by an explicit `free()`, which calls the native destructor,
    unregisters the finaliser token and nulls the pointer. The native calls
    and registry operations are recorded, in order, in an effect log. */
module Handles {
  import opened Wrappers

  datatype Ptr = Null | Addr(addr: nat)

  /** The classes of src/index.ts that own a native pointer. */
  datatype Kind =
    | Paragraph | Terminal | List | Table | Gauge | Tabs | BarChart | Sparkline
    | Chart | Canvas | LineGauge | Scrollbar

  /** `ptr` is the native pointer (NULL once freed); `token` is the object the
      finaliser registration is keyed by. */
  datatype Handle = Handle(kind: Kind, ptr: Ptr, token: nat)

  datatype Effect =
    | NativeNew(newKind: Kind)
    | Register(regKind: Kind, regPtr: Ptr, regToken: nat)
    | NativeFree(freeKind: Kind, freeAddr: nat)
    | Unregister(unregKind: Kind, unregToken: nat)
    | ScrollbarConfigure(cfgPtr: Ptr, orient: int, position: int, contentLen: int, viewportLen: int)

  datatype CreateError =
    | NullHandle(nullKind: Kind)  // "ratatui_..._new failed" / "returned null"
    | Unavailable                 // "Scrollbar not available"

  /** Which optional scrollbar symbols the loaded library exports. */
  datatype ScrollbarSymbols = ScrollbarSymbols(hasNew: bool, hasConfigure: bool, hasFree: bool)

  predicate Live(h: Handle)
  {
    h.ptr.Addr?
  }

  /** A constructor of every kind but `Scrollbar`: call the native
      constructor, throw when it returns NULL, otherwise register the new
      object with its finaliser. */
  function Create(kind: Kind, returned: Ptr, token: nat, log: seq<Effect>): (r: (Result<Handle, CreateError>, seq<Effect>))
    requires kind != Scrollbar
    ensures r.0.Success? <==> returned.Addr?
    ensures r.0.Success? ==>
              r.0.value == Handle(kind, returned, token) && Live(r.0.value)
              && r.1 == log + [NativeNew(kind), Register(kind, returned, token)]
    ensures r.0.Failure? ==> r.0.error == NullHandle(kind) && r.1 == log + [NativeNew(kind)]
  {
    if returned.Null? then (Failure(NullHandle(kind)), log + [NativeNew(kind)])
    else (Success(Handle(kind, returned, token)), log + [NativeNew(kind), Register(kind, returned, token)])
  }

  /** The `Scrollbar` constructor as written: it throws when `sc_new` or
      `sc_cfg` is missing, but never checks what `sc_new()` returned, so a
      NULL pointer is registered and configured. */
  function ScrollbarNewAsWritten(syms: ScrollbarSymbols, returned: Ptr, token: nat,
                                 orient: int, position: int, contentLen: int, viewportLen: int,
                                 log: seq<Effect>): (r: (Result<Handle, CreateError>, seq<Effect>))
    ensures r.0.Success? <==> syms.hasNew && syms.hasConfigure
    ensures r.0.Failure? ==> r.0.error == Unavailable && r.1 == log
    ensures r.0.Success? ==>
              r.0.value == Handle(Scrollbar, returned, token)
              && r.1 == log + [NativeNew(Scrollbar), Register(Scrollbar, returned, token),
                               ScrollbarConfigure(returned, orient, position, contentLen, viewportLen)]
  {
    if !syms.hasNew || !syms.hasConfigure then (Failure(Unavailable), log)
    else
      (Success(Handle(Scrollbar, returned, token)),
       log + [NativeNew(Scrollbar), Register(Scrollbar, returned, token),
              ScrollbarConfigure(returned, orient, position, contentLen, viewportLen)])
  }

  /** With every symbol present and `sc_new()` returning NULL, the constructor
      as written hands back a handle that is not live and configures NULL. */
  lemma ScrollbarNullAccepted(token: nat, log: seq<Effect>)
    ensures var r := ScrollbarNewAsWritten(ScrollbarSymbols(true, true, true), Null, token, 0, 0, 0, 0, log);
            r.0.Success? && !Live(r.0.value) && ScrollbarConfigure(Null, 0, 0, 0, 0) in r.1
  {
    var r := ScrollbarNewAsWritten(ScrollbarSymbols(true, true, true), Null, token, 0, 0, 0, 0, log);
    assert r.1[|log| + 2] == ScrollbarConfigure(Null, 0, 0, 0, 0);
  }

  /** The `Scrollbar` constructor with the NULL check the other constructors
      make: a NULL pointer is neither registered nor configured. */
  function ScrollbarNew(syms: ScrollbarSymbols, returned: Ptr, token: nat,
                        orient: int, position: int, contentLen: int, viewportLen: int,
                        log: seq<Effect>): (r: (Result<Handle, CreateError>, seq<Effect>))
    ensures r.0.Success? <==> syms.hasNew && syms.hasConfigure && returned.Addr?
    ensures r.0.Success? ==>
              r.0.value == Handle(Scrollbar, returned, token) && Live(r.0.value)
              && r.1 == log + [NativeNew(Scrollbar), Register(Scrollbar, returned, token),
                               ScrollbarConfigure(returned, orient, position, contentLen, viewportLen)]
    ensures r.0.Failure? && syms.hasNew && syms.hasConfigure ==>
              r.0.error == NullHandle(Scrollbar) && r.1 == log + [NativeNew(Scrollbar)]
    ensures !(syms.hasNew && syms.hasConfigure) ==> r.0 == Failure(Unavailable) && r.1 == log
  {
    if !syms.hasNew || !syms.hasConfigure then (Failure(Unavailable), log)
    else if returned.Null? then (Failure(NullHandle(Scrollbar)), log + [NativeNew(Scrollbar)])
    else
      (Success(Handle(Scrollbar, returned, token)),
       log + [NativeNew(Scrollbar), Register(Scrollbar, returned, token),
              ScrollbarConfigure(returned, orient, position, contentLen, viewportLen)])
  }

  /** Whether `free()` can reach the native destructor: always, except for a
      scrollbar when the library lacks the optional `sc_free` symbol. */
  predicate CanFree(h: Handle, syms: ScrollbarSymbols)
  {
    h.kind != Scrollbar || syms.hasFree
  }

  /** `free()`: on a live handle whose destructor is available, call it once,
      unregister the finaliser token and null the pointer; otherwise nothing. */
  function Free(h: Handle, syms: ScrollbarSymbols, log: seq<Effect>): (r: (Handle, seq<Effect>))
    ensures Live(h) && CanFree(h, syms) ==>
              r.0 == h.(ptr := Null)
              && r.1 == log + [NativeFree(h.kind, h.ptr.addr), Unregister(h.kind, h.token)]
    ensures !(Live(h) && CanFree(h, syms)) ==> r == (h, log)
    ensures r.0.kind == h.kind && r.0.token == h.token
  {
    if CanFree(h, syms) && h.ptr.Addr? then
      (h.(ptr := Null), log + [NativeFree(h.kind, h.ptr.addr), Unregister(h.kind, h.token)])
    else (h, log)
  }

  /** `n` consecutive calls of `free()`. */
  function FreeTimes(h: Handle, syms: ScrollbarSymbols, log: seq<Effect>, n: nat): (Handle, seq<Effect>)
    decreases n
  {
    if n == 0 then (h, log)
    else
      var r := Free(h, syms, log);
      FreeTimes(r.0, syms, r.1, n - 1)
  }

  /** Freeing a handle that is not live, or cannot be freed, changes nothing
      however often it is repeated. */
  lemma {:induction false} FreeTimesNoop(h: Handle, syms: ScrollbarSymbols, log: seq<Effect>, n: nat)
    requires !(Live(h) && CanFree(h, syms))
    ensures FreeTimes(h, syms, log, n) == (h, log)
  {
    if n > 0 {
      FreeTimesNoop(h, syms, log, n - 1);
    }
  }

  /** However many times a live handle is freed, the native destructor runs
      exactly once and the finaliser token is unregistered exactly once: the
      second and later calls are no-ops. */
  lemma {:induction false} FreeTimesFreesOnce(h: Handle, syms: ScrollbarSymbols, log: seq<Effect>, n: nat)
    requires Live(h) && CanFree(h, syms) && n >= 1
    ensures FreeTimes(h, syms, log, n)
            == (h.(ptr := Null), log + [NativeFree(h.kind, h.ptr.addr), Unregister(h.kind, h.token)])
  {
    var r := Free(h, syms, log);
    assert !Live(r.0);
    FreeTimesNoop(r.0, syms, r.1, n - 1);
  }

  /** Number of destructor calls on `addr` recorded in a log. */
  function CountFrees(log: seq<Effect>, addr: nat): nat
  {
    if |log| == 0 then 0
    else (if log[0].NativeFree? && log[0].freeAddr == addr then 1 else 0) + CountFrees(log[1..], addr)
  }

  lemma CountFreesAppend(a: seq<Effect>, b: seq<Effect>, addr: nat)
    ensures CountFrees(a + b, addr) == CountFrees(a, addr) + CountFrees(b, addr)
  {
    if |a| > 0 {
      assert (a + b)[1..] == a[1..] + b;
      CountFreesAppend(a[1..], b, addr);
    } else {
      assert a + b == b;
    }
  }

  /** Counted in the log: repeated `free()` adds exactly one destructor call. */
  lemma FreeTimesCount(h: Handle, syms: ScrollbarSymbols, log: seq<Effect>, n: nat)
    requires Live(h) && CanFree(h, syms) && n >= 1
    ensures CountFrees(FreeTimes(h, syms, log, n).1, h.ptr.addr) == CountFrees(log, h.ptr.addr) + 1
  {
    FreeTimesFreesOnce(h, syms, log, n);
    var tail := [NativeFree(h.kind, h.ptr.addr), Unregister(h.kind, h.token)];
    CountFreesAppend(log, tail, h.ptr.addr);
    assert CountFrees(tail, h.ptr.addr) == 1 by {
      assert tail[1..] == [Unregister(h.kind, h.token)];
      assert tail[1..][1..] == [];
      assert CountFrees(tail[1..], h.ptr.addr) == 0;
    }
  }
}
