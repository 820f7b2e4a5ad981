/**
 Hook registration and the four hook runners.

 A registered function is modelled as a state transformer: the arguments of the hook are
 fixed, and everything the function may read or change is in the state of type S.
 */
module Hooks {

  type Callback<!S, !R> = S -> (R, S)

  /** The fields of the LINK struct of a hook. */
  datatype HookLink<!F> = HookLink(
    pFunc: F,
    szName: string,
    aszPredecessors: seq<string>,
    aszSuccessors: seq<string>,
    nOrder: int)

  /** What a run returns, the state it leaves, and how many functions it called. */
  datatype Outcome<R, S> = Outcome(rv: R, state: S, calls: nat) {
    function AfterOneMore(): Outcome<R, S> {
      this.(calls := calls + 1)
    }
  }

  function Funcs<F>(links: seq<HookLink<F>>): (fs: seq<F>)
    ensures |fs| == |links| && forall i :: 0 <= i < |links| ==> fs[i] == links[i].pFunc
  {
    seq(|links|, i requires 0 <= i < |links| => links[i].pFunc)
  }

  /** Ask the functions in order until one returns something other than ok or decline. */
  function RunAll<R(==), S>(fs: seq<Callback<S, R>>, s: S, ok: R, decline: R): Outcome<R, S> {
    if fs == [] then Outcome(ok, s, 0)
    else
      var (rv, s') := fs[0](s);
      if rv != ok && rv != decline then Outcome(rv, s', 1)
      else RunAll(fs[1..], s', ok, decline).AfterOneMore()
  }

  /** Ask the functions in order until one does not decline. */
  function RunFirst<R(==), S>(fs: seq<Callback<S, R>>, s: S, decline: R): Outcome<R, S> {
    if fs == [] then Outcome(decline, s, 0)
    else
      var (rv, s') := fs[0](s);
      if rv != decline then Outcome(rv, s', 1)
      else RunFirst(fs[1..], s', decline).AfterOneMore()
  }

  /** The state after calling the first n functions, whatever they return. */
  function StateAfter<R, S>(fs: seq<Callback<S, R>>, s: S, n: nat): S
    requires n <= |fs|
  {
    if n == 0 then s else fs[n - 1](StateAfter(fs, s, n - 1)).1
  }

  /** What the i-th function returns when all before it have been called. */
  function ReturnAt<R, S>(fs: seq<Callback<S, R>>, s: S, i: nat): R
    requires i < |fs|
  {
    fs[i](StateAfter(fs, s, i)).0
  }

  predicate Passes<R(==)>(rv: R, ok: R, decline: R) {
    rv == ok || rv == decline
  }

  lemma {:induction false} Shift<R, S>(fs: seq<Callback<S, R>>, s: S, n: nat)
    requires 0 < n <= |fs|
    ensures StateAfter(fs, s, n) == StateAfter(fs[1..], fs[0](s).1, n - 1)
  {
    if n > 1 {
      Shift(fs, s, n - 1);
    }
  }

  /**
   RUN_ALL calls exactly the prefix up to and including the first function that stops it, and
   returns what that function returned, or ok if there is none.
   */
  lemma {:induction false} RunAllCallsPrefix<R, S>(fs: seq<Callback<S, R>>, s: S, ok: R, decline: R)
    ensures var o := RunAll(fs, s, ok, decline);
            && o.calls <= |fs| && o.state == StateAfter(fs, s, o.calls)
            && (forall i :: 0 <= i < o.calls - 1 ==> Passes(ReturnAt(fs, s, i), ok, decline))
            && (if o.calls > 0 && !Passes(ReturnAt(fs, s, o.calls - 1), ok, decline)
                then o.rv == ReturnAt(fs, s, o.calls - 1)
                else o.calls == |fs| && o.rv == ok)
  {
    if fs != [] {
      var (rv, s') := fs[0](s);
      assert ReturnAt(fs, s, 0) == rv;
      if Passes(rv, ok, decline) {
        var o := RunAll(fs[1..], s', ok, decline);
        RunAllCallsPrefix(fs[1..], s', ok, decline);
        forall i | 0 < i <= o.calls && i < |fs| ensures ReturnAt(fs, s, i) == ReturnAt(fs[1..], s', i - 1) {
          Shift(fs, s, i);
        }
        Shift(fs, s, o.calls + 1);
      }
    }
  }

  /** RUN_ALL stops early exactly if some function, asked in turn, would not pass. */
  lemma RunAllStopsIff<R, S>(fs: seq<Callback<S, R>>, s: S, ok: R, decline: R)
    ensures !Passes(RunAll(fs, s, ok, decline).rv, ok, decline)
       <==> exists i :: 0 <= i < |fs| && !Passes(ReturnAt(fs, s, i), ok, decline)
  {
    RunAllCallsPrefix(fs, s, ok, decline);
  }

  /** Declining is never what RUN_ALL as a whole answers, unless decline and ok are one value. */
  lemma {:induction false} RunAllNeverDeclines<R, S>(fs: seq<Callback<S, R>>, s: S, ok: R, decline: R)
    ensures RunAll(fs, s, ok, decline).rv == decline ==> ok == decline
  {
    if fs != [] {
      RunAllNeverDeclines(fs[1..], fs[0](s).1, ok, decline);
    }
  }

  /** Running A then B: B is asked only if A ended without an early exit. */
  lemma {:induction false} RunAllConcat<R, S>(a: seq<Callback<S, R>>, b: seq<Callback<S, R>>, s: S, ok: R, decline: R)
    ensures var oa := RunAll(a, s, ok, decline);
            var ob := RunAll(b, oa.state, ok, decline);
            RunAll(a + b, s, ok, decline)
              == if oa.rv != ok then oa else Outcome(ob.rv, ob.state, oa.calls + ob.calls)
  {
    if a == [] {
      assert a + b == b;
    } else {
      assert (a + b)[1..] == a[1..] + b;
      RunAllConcat(a[1..], b, a[0](s).1, ok, decline);
    }
  }

  lemma {:induction false} RunFirstConcat<R, S>(a: seq<Callback<S, R>>, b: seq<Callback<S, R>>, s: S, decline: R)
    ensures var oa := RunFirst(a, s, decline);
            var ob := RunFirst(b, oa.state, decline);
            RunFirst(a + b, s, decline)
              == if oa.rv != decline then oa else Outcome(ob.rv, ob.state, oa.calls + ob.calls)
  {
    RunFirstIsRunAll(a, s, decline);
    RunFirstIsRunAll(b, RunFirst(a, s, decline).state, decline);
    RunFirstIsRunAll(a + b, s, decline);
    RunAllConcat(a, b, s, decline, decline);
  }

  /** RUN_FIRST is RUN_ALL with one value for ok and decline. */
  lemma {:induction false} RunFirstIsRunAll<R, S>(fs: seq<Callback<S, R>>, s: S, decline: R)
    ensures RunFirst(fs, s, decline) == RunAll(fs, s, decline, decline)
  {
    if fs != [] {
      RunFirstIsRunAll(fs[1..], fs[0](s).1, decline);
    }
  }

  /** RUN_FIRST returns the first answer that does not decline, and asks nobody after it. */
  lemma RunFirstCallsPrefix<R, S>(fs: seq<Callback<S, R>>, s: S, decline: R)
    ensures var o := RunFirst(fs, s, decline);
            && o.calls <= |fs| && o.state == StateAfter(fs, s, o.calls)
            && (forall i :: 0 <= i < o.calls - 1 ==> ReturnAt(fs, s, i) == decline)
            && (if o.rv != decline then o.calls > 0 && o.rv == ReturnAt(fs, s, o.calls - 1)
                else o.calls == |fs| && forall i :: 0 <= i < |fs| ==> ReturnAt(fs, s, i) == decline)
  {
    RunFirstIsRunAll(fs, s, decline);
    RunAllCallsPrefix(fs, s, decline, decline);
  }

  /** The effect of calling every function once, in order. */
  function Fold<S>(fs: seq<S -> S>, s: S): S {
    if fs == [] then s else fs[|fs| - 1](Fold(fs[..|fs| - 1], s))
  }

  lemma {:induction false} FoldConcat<S>(a: seq<S -> S>, b: seq<S -> S>, s: S)
    ensures Fold(a + b, s) == Fold(b, Fold(a, s))
  {
    if b == [] {
      assert a + b == a;
    } else {
      assert (a + b)[..|a + b| - 1] == a + b[..|b| - 1];
      FoldConcat(a, b[..|b| - 1], s);
    }
  }

  /** A function registered later runs later: on the state that all earlier ones leave. */
  lemma RegisteredLastRunsLast<S>(links: seq<HookLink<S -> S>>, link: HookLink<S -> S>, s: S)
    ensures Fold(Funcs(links + [link]), s) == link.pFunc(Fold(Funcs(links), s))
  {
    assert Funcs(links + [link]) == Funcs(links) + [link.pFunc];
    FoldConcat(Funcs(links), [link.pFunc], s);
    assert [link.pFunc][..0] == [];
  }

  /** The array of registered links; the pointer to it is null until the first registration. */
  class HookArray<!F> {
    var elts: seq<HookLink<F>>

    constructor ()
      ensures elts == []
    {
      elts := [];
    }
  }

  class HookPoint<!F> {
    var link: HookArray?<F>
    /** how often apr_hook_sort_register has been called for this hook */
    var sortRegistrations: nat

    constructor ()
      ensures link == null && sortRegistrations == 0 && Registered() == []
    {
      link, sortRegistrations := null, 0;
    }

    function Registered(): seq<HookLink<F>>
      reads this, link
    {
      if link == null then [] else link.elts
    }

    /** The array exists, and is known to the sorter, from the first registration on. */
    ghost predicate Valid()
      reads this, link
    {
      && (link == null <==> sortRegistrations == 0)
      && sortRegistrations <= 1
      && (link != null ==> link.elts != [])
    }

    /** The registration function of a hook; current is the name of the registering module. */
    method Hook(pf: F, aszPre: seq<string>, aszSucc: seq<string>, nOrder: int, current: string)
      requires Valid()
      modifies this, link
      ensures Valid() && sortRegistrations == 1
      ensures old(link) != null ==> link == old(link)
      ensures old(link) == null ==> fresh(link)
      ensures Registered() == old(Registered()) + [HookLink(pf, current, aszPre, aszSucc, nOrder)]
    {
      if link == null {
        link := new HookArray();
        sortRegistrations := sortRegistrations + 1;
      }
      link.elts := link.elts + [HookLink(pf, current, aszPre, aszSucc, nOrder)];
    }
  }

  /** The runner of a void hook calls every registered function; called lists the calls it makes. */
  method RunVoid<S>(hooks: HookPoint<S -> S>, s: S) returns (state: S, called: seq<HookLink<S -> S>>)
    ensures called == hooks.Registered()
    ensures state == Fold(Funcs(hooks.Registered()), s)
  {
    state, called := s, [];
    ghost var fs := Funcs(hooks.Registered());
    if hooks.link != null {
      var pHook := hooks.link.elts;
      var n := 0;
      while n < |pHook|
        invariant 0 <= n <= |pHook| && state == Fold(fs[..n], s) && called == pHook[..n]
      {
        assert fs[..n + 1][..n] == fs[..n];
        called := called + [pHook[n]];
        state := pHook[n].pFunc(state);
        n := n + 1;
      }
      assert fs[..n] == fs;
    }
  }

  /**
   Any sequence of registrations, followed by a run: every function is called once, the earlier
   ones first and then the new ones in the order they were registered.
   */
  method RegisterAndRun<S>(hooks: HookPoint<S -> S>, links: seq<HookLink<S -> S>>, s: S)
    returns (state: S, called: seq<HookLink<S -> S>>)
    requires hooks.Valid()
    modifies hooks, hooks.link
    ensures hooks.Valid() && hooks.Registered() == old(hooks.Registered()) + links
    ensures called == old(hooks.Registered()) + links
    ensures state == Fold(Funcs(links), Fold(Funcs(old(hooks.Registered())), s))
  {
    ghost var before := hooks.Registered();
    var n := 0;
    while n < |links|
      invariant 0 <= n <= |links| && hooks.Valid()
      invariant hooks.link == old(hooks.link) || fresh(hooks.link)
      invariant hooks.Registered() == before + links[..n]
    {
      var l := links[n];
      hooks.Hook(l.pFunc, l.aszPredecessors, l.aszSuccessors, l.nOrder, l.szName);
      n := n + 1;
    }
    assert links[..n] == links;
    state, called := RunVoid(hooks, s);
    assert Funcs(before + links) == Funcs(before) + Funcs(links);
    FoldConcat(Funcs(before), Funcs(links), s);
  }

  /** The external RUN_ALL: rv is reset to ok after every function that lets the run go on. */
  method ExternalRunAll<R(==), S>(hooks: HookPoint<Callback<S, R>>, s: S, ok: R, decline: R)
    returns (rv: R, state: S, calls: nat)
    ensures Outcome(rv, state, calls) == RunAll(Funcs(hooks.Registered()), s, ok, decline)
  {
    rv, state, calls := ok, s, 0;
    ghost var fs := Funcs(hooks.Registered());
    if hooks.link != null {
      var pHook := hooks.link.elts;
      var n := 0;
      while n < |pHook|
        invariant 0 <= n <= |pHook| && n == calls && rv == ok
        invariant RunAll(fs, s, ok, decline) == Ahead(RunAll(fs[n..], state, ok, decline), calls)
      {
        assert fs[n..][1..] == fs[n + 1..];
        var answer := pHook[n].pFunc(state);
        rv, state, calls := answer.0, answer.1, calls + 1;
        if rv != ok && rv != decline {
          break;
        }
        rv := ok;
        n := n + 1;
      }
    }
  }

  /** The optional RUN_ALL: it returns from inside the loop, and never resets rv. */
  method OptionalRunAll<R(==), S>(hooks: HookPoint<Callback<S, R>>, s: S, ok: R, decline: R)
    returns (result: R, state: S, calls: nat)
    ensures Outcome(result, state, calls) == RunAll(Funcs(hooks.Registered()), s, ok, decline)
  {
    result, state, calls := ok, s, 0;
    ghost var fs := Funcs(hooks.Registered());
    if hooks.link == null {
      return;
    }
    var pHook := hooks.link.elts;
    var n := 0;
    while n < |pHook|
      invariant 0 <= n <= |pHook| && n == calls && result == ok
      invariant RunAll(fs, s, ok, decline) == Ahead(RunAll(fs[n..], state, ok, decline), calls)
    {
      assert fs[n..][1..] == fs[n + 1..];
      var (rv, s') := pHook[n].pFunc(state);
      state, calls := s', calls + 1;
      if rv != ok && rv != decline {
        return rv, state, calls;
      }
      n := n + 1;
    }
    return ok, state, calls;
  }

  method ExternalRunFirst<R(==), S>(hooks: HookPoint<Callback<S, R>>, s: S, decline: R)
    returns (rv: R, state: S, calls: nat)
    ensures Outcome(rv, state, calls) == RunFirst(Funcs(hooks.Registered()), s, decline)
  {
    rv, state, calls := decline, s, 0;
    ghost var fs := Funcs(hooks.Registered());
    if hooks.link != null {
      var pHook := hooks.link.elts;
      var n := 0;
      while n < |pHook|
        invariant 0 <= n <= |pHook| && n == calls && rv == decline
        invariant RunFirst(fs, s, decline) == Ahead(RunFirst(fs[n..], state, decline), calls)
      {
        assert fs[n..][1..] == fs[n + 1..];
        var answer := pHook[n].pFunc(state);
        rv, state, calls := answer.0, answer.1, calls + 1;
        if rv != decline {
          break;
        }
        n := n + 1;
      }
    }
  }

  /** The outcome of a run of which some calls have been made before. */
  ghost function Ahead<R, S>(o: Outcome<R, S>, calls: nat): Outcome<R, S> {
    o.(calls := o.calls + calls)
  }
}
