/** Programs whose finally blocks clash with the unwinding flag: the code ends otherwise than the source. */
module FinallyLimits {
  import opened Options
  import opened Exceptions
  import opened Unwinder
  import opened UnwinderProofs
  import opened UnwinderTheorems

  const PROBLEM := Exn(7, 0)

  function Throw(st: int): Exn {
    PROBLEM
  }

  function Keep(st: int): int {
    st
  }

  function Bump(st: int): int {
    st + 1
  }

  function Ignore(st: int, e: Exn): int {
    st
  }

  // ----- a return in a finally block -----

  /** f1 raises and returns from its finally block; f0 calls it and then passes an innocent finally block. */
  function ReturnInFinally(): Program<int> {
    Program([Seq(Call(1), TryFinally(Skip, Skip)), TryFinally(Raise(Throw), Return(Keep))], map[])
  }

  lemma ReturnInFinallySource()
    ensures Source(ReturnInFinally(), 0, 2) == Normal(0)
  {
    var p := ReturnInFinally();
    assert Exec(p, p.funcs[1].body, 0, 1) == Raised(PROBLEM, 0);
    assert Exec(p, p.funcs[1], 0, 1) == Returned(0);
    assert Exec(p, p.funcs[0].first, 0, 2) == Normal(0);
    assert Exec(p, p.funcs[0].second, 0, 2) == Normal(0);
  }

  lemma ReturnInFinallyInCode()
    ensures Accepted(ReturnInFinally()) && InCode(ReturnInFinally(), 0, 2) == Raised(PROBLEM, World(0, Some(PROBLEM)))
  {
    var p := ReturnInFinally();
    var w, late := World(0, None), World(0, Some(PROBLEM));
    assert Flagged(p, p.funcs[1].body, w, 1) == Raised(PROBLEM, late);
    assert Flagged(p, p.funcs[1], w, 1) == Returned(late);
    assert Flagged(p, p.funcs[0].first, w, 2) == Normal(late);
    assert Flagged(p, p.funcs[0].second, late, 2) == Raised(PROBLEM, late);
  }

  /** The source ends normally; the code dies of the exception that the return had ended. */
  lemma ReturnInFinallyFails() returns (k: nat)
    ensures var p := ReturnInFinally();
      Accepted(p) && Source(p, 0, 2) == Normal(0) && Machine(p, 0, k).mode == Uncaught(PROBLEM)
  {
    hide Machine, Source, InCode, Accepted;
    ReturnInFinallySource();
    ReturnInFinallyInCode();
    k := RunMain(ReturnInFinally(), 0, 2);
  }

  // ----- a try in a finally block -----

  /** The finally block passes an innocent try of its own and then counts; the exception is caught outside. */
  function TryInFinally(): Program<int> {
    var cleanup := Seq(TryFinally(Skip, Skip), Do(Bump));
    Program([TryCatch(TryFinally(Raise(Throw), cleanup), None, Ignore, Skip)], map[])
  }

  lemma TryInFinallySource()
    ensures Source(TryInFinally(), 0, 0) == Normal(1)
  {
    var p := TryInFinally();
    var inner := p.funcs[0].body;
    assert Exec(p, inner.body, 0, 0) == Raised(PROBLEM, 0);
    assert Exec(p, inner.cleanup.first, 0, 0) == Normal(0);
    assert Exec(p, inner.cleanup, 0, 0) == Normal(1);
    assert Exec(p, inner, 0, 0) == Raised(PROBLEM, 1);
    assert Exec(p, p.funcs[0].handler, Ignore(1, PROBLEM), 0) == Normal(1);
  }

  lemma TryInFinallyInCode()
    ensures Accepted(TryInFinally()) && InCode(TryInFinally(), 0, 0) == Normal(World(0, None))
  {
    var p := TryInFinally();
    var inner := p.funcs[0].body;
    var stacker := [] + [InTry] + [InFinally];
    assert Compiles(inner.cleanup.first.cleanup, stacker + [InFinally], 1);
    assert Compiles(inner.cleanup.first, stacker, 1) && Compiles(inner.cleanup.second, stacker, 1);
    assert Compiles(inner.cleanup, stacker, 1) && Compiles(inner.body, [] + [InTry] + [InTry], 1);
    assert Compiles(inner, [] + [InTry], 1);
    var w, late := World(0, None), World(0, Some(PROBLEM));
    assert Flagged(p, inner.body, w, 0) == Raised(PROBLEM, late);
    assert Flagged(p, inner.cleanup.first, late, 0) == Raised(PROBLEM, late);
    assert Flagged(p, inner.cleanup, late, 0) == Raised(PROBLEM, late);
    assert Flagged(p, inner, w, 0) == Raised(PROBLEM, late);
    assert Flagged(p, p.funcs[0].handler, World(Ignore(0, PROBLEM), None), 0) == Normal(w);
  }

  /** In the source the finally block runs to its end; in the code its second half is skipped. */
  lemma TryInFinallyFails() returns (k: nat)
    ensures var p := TryInFinally();
      && Accepted(p) && Source(p, 0, 0) == Normal(1)
      && Machine(p, 0, k).mode == Finished && Machine(p, 0, k).st == 0
  {
    hide Machine, Source, InCode, Accepted;
    TryInFinallySource();
    TryInFinallyInCode();
    k := RunMain(TryInFinally(), 0, 0);
  }

  // ----- a catch in a finally block -----

  /** The finally block handles a problem of its own; with that, the exception under way is forgotten. */
  function CatchInFinally(): Program<int> {
    Program([TryFinally(Raise(Throw), TryCatch(Raise(Throw), None, Ignore, Skip))], map[])
  }

  lemma CatchInFinallySource()
    ensures Source(CatchInFinally(), 0, 0) == Raised(PROBLEM, 0)
  {
    var p := CatchInFinally();
    var f := p.funcs[0];
    assert Exec(p, f.body, 0, 0) == Raised(PROBLEM, 0);
    assert Exec(p, f.cleanup.body, 0, 0) == Raised(PROBLEM, 0);
    assert Exec(p, f.cleanup.handler, Ignore(0, PROBLEM), 0) == Normal(0);
    assert Exec(p, f.cleanup, 0, 0) == Normal(0);
  }

  lemma CatchInFinallyInCode()
    ensures Accepted(CatchInFinally()) && InCode(CatchInFinally(), 0, 0) == Normal(World(0, None))
  {
    var p := CatchInFinally();
    var f := p.funcs[0];
    var stacker := [] + [InFinally];
    assert Compiles(f.cleanup.body, stacker + [InTry], 1) && Compiles(f.cleanup.handler, stacker + [InCatch], 1);
    var w, late := World(0, None), World(0, Some(PROBLEM));
    assert Flagged(p, f.body, w, 0) == Raised(PROBLEM, late);
    assert Flagged(p, f.cleanup.body, late, 0) == Raised(PROBLEM, late);
    assert Flagged(p, f.cleanup.handler, World(Ignore(0, PROBLEM), None), 0) == Normal(w);
    assert Flagged(p, f.cleanup, late, 0) == Normal(w);
  }

  /** The source dies of its exception; the code ends as if nothing had been raised. */
  lemma CatchInFinallyFails() returns (k: nat)
    ensures var p := CatchInFinally();
      Accepted(p) && Source(p, 0, 0) == Raised(PROBLEM, 0) && Machine(p, 0, k).mode == Finished
  {
    hide Machine, Source, InCode, Accepted;
    CatchInFinallySource();
    CatchInFinallyInCode();
    k := RunMain(CatchInFinally(), 0, 0);
  }
}
