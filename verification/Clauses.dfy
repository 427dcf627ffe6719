/** A try with several clauses: gen_block nests it into single-clause tries, the first clause innermost. */
module Clauses {
  import opened Options
  import opened Exceptions

  datatype Clause<!S> =
    | Catch(klass: Option<Klass>, bind: (S, Exn) -> S, block: Stmt<S>)
    | Finally(block: Stmt<S>)

  /** One clause around a body, as gen_try_stuff takes it. */
  function Wrap<S>(body: Stmt<S>, c: Clause<S>): Stmt<S> {
    match c
    case Catch(klass, bind, block) => TryCatch(body, klass, bind, block)
    case Finally(block) => TryFinally(body, block)
  }

  function Nest<S>(body: Stmt<S>, clauses: seq<Clause<S>>): Stmt<S> {
    if clauses == [] then body else Wrap(Nest(body, clauses[..|clauses| - 1]), clauses[|clauses| - 1])
  }

  /** The combining loop of gen_block: all clauses but the last are folded into the try block; the last one is
      generated around the result. None is the compiler's refusal of a try by itself. */
  method Combine<S>(body: Stmt<S>, clauses: seq<Clause<S>>) returns (r: Option<Stmt<S>>)
    ensures clauses == [] ==> r == None
    ensures clauses != [] ==> r == Some(Nest(body, clauses))
  {
    if clauses == [] {
      return None;
    }
    var last := |clauses| - 1;
    if last == 0 {
      return Some(Wrap(body, clauses[0]));
    }
    var tryBlock, other := body, 0;
    var next := 1;
    while true
      invariant 1 <= next <= last && other == next - 1
      invariant tryBlock == Nest(body, clauses[..other])
      decreases last - next
    {
      var newTry := Wrap(tryBlock, clauses[other]);
      assert clauses[..next][..other] == clauses[..other];
      if next == last {
        return Some(Wrap(newTry, clauses[last]));
      }
      other := next;
      tryBlock := newTry;
      next := next + 1;
    }
  }

  /** Blocks that end normally whatever happened before. */
  ghost predicate Quiet<S(!new)>(p: Program<S>, clauses: seq<Clause<S>>, fuel: nat)
    requires Acyclic(p.parent)
  {
    forall i, st: S :: 0 <= i < |clauses| ==> Exec(p, clauses[i].block, st, fuel).Normal?
  }

  /** The finally blocks among the clauses, in source order. */
  function RunFinallys<S>(p: Program<S>, clauses: seq<Clause<S>>, st: S, fuel: nat): S
    requires Acyclic(p.parent)
  {
    if clauses == [] then st
    else
      var u :=
        if clauses[0].Finally? then
          var o := Exec(p, clauses[0].block, st, fuel);
          if o.Normal? then o.st else st
        else st;
      RunFinallys(p, clauses[1..], u, fuel)
  }

  predicate Matches<S>(p: Program<S>, c: Clause<S>, e: Exn)
    requires Acyclic(p.parent)
  {
    c.Catch? && Catches(p.parent, c.klass, e)
  }

  /** The number of the first catch clause for `e`, or the number of clauses. */
  function FirstMatch<S>(p: Program<S>, clauses: seq<Clause<S>>, e: Exn): (n: nat)
    requires Acyclic(p.parent)
    ensures n <= |clauses|
    ensures n < |clauses| ==> Matches(p, clauses[n], e)
    ensures forall i :: 0 <= i < n ==> !Matches(p, clauses[i], e)
  {
    if clauses == [] || Matches(p, clauses[0], e) then 0 else 1 + FirstMatch(p, clauses[1..], e)
  }

  /** What the user reads into the clauses after an exception `e`: the finally blocks before the first matching catch
      run, then that catch block, then the finally blocks after it; or all finally blocks run and `e` goes on. */
  function FirstMatching<S>(p: Program<S>, clauses: seq<Clause<S>>, e: Exn, st: S, fuel: nat): Outcome<S>
    requires Acyclic(p.parent)
  {
    var n := FirstMatch(p, clauses, e);
    var u := RunFinallys(p, clauses[..n], st, fuel);
    if n == |clauses| then Raised(e, u)
    else
      var o := Exec(p, clauses[n].block, clauses[n].bind(u, e), fuel);
      if o.Normal? then Normal(RunFinallys(p, clauses[n + 1..], o.st, fuel)) else o
  }

  // ----- the nesting means that -----

  /** The clauses applied to an outcome of the body, from the innermost on. */
  function Apply<S>(p: Program<S>, o: Outcome<S>, clauses: seq<Clause<S>>, fuel: nat): Outcome<S>
    requires Acyclic(p.parent)
    decreases |clauses|
  {
    if clauses == [] then o else Apply(p, ApplyOne(p, o, clauses[0], fuel), clauses[1..], fuel)
  }

  function ApplyOne<S>(p: Program<S>, o: Outcome<S>, c: Clause<S>, fuel: nat): Outcome<S>
    requires Acyclic(p.parent)
  {
    match c
    case Catch(klass, bind, block) =>
      if o.Raised? && Catches(p.parent, klass, o.exn) then Exec(p, block, bind(o.st, o.exn), fuel) else o
    case Finally(block) =>
      match o
      case Normal(u) => Exec(p, block, u, fuel)
      case Raised(e, u) =>
        var f := Exec(p, block, u, fuel);
        if f.Normal? then Raised(e, f.st) else f
      case _ => o
  }

  lemma {:induction false} ApplySnoc<S>(p: Program<S>, o: Outcome<S>, clauses: seq<Clause<S>>, c: Clause<S>, fuel: nat)
    requires Acyclic(p.parent)
    ensures Apply(p, o, clauses + [c], fuel) == ApplyOne(p, Apply(p, o, clauses, fuel), c, fuel)
    decreases |clauses|
  {
    hide ApplyOne;
    if clauses == [] {
      assert clauses + [c] == [c];
    } else {
      assert (clauses + [c])[1..] == clauses[1..] + [c];
      ApplySnoc(p, ApplyOne(p, o, clauses[0], fuel), clauses[1..], c, fuel);
    }
  }

  /** Left nesting applies the clauses in source order, whatever their blocks do. */
  lemma {:induction false} NestApplies<S>(p: Program<S>, body: Stmt<S>, clauses: seq<Clause<S>>, st: S, fuel: nat)
    requires Acyclic(p.parent)
    ensures Exec(p, Nest(body, clauses), st, fuel) == Apply(p, Exec(p, body, st, fuel), clauses, fuel)
    decreases |clauses|
  {
    if clauses != [] {
      var n := |clauses| - 1;
      NestApplies(p, body, clauses[..n], st, fuel);
      assert clauses == clauses[..n] + [clauses[n]];
      ApplySnoc(p, Exec(p, body, st, fuel), clauses[..n], clauses[n], fuel);
    }
  }

  lemma QuietRest<S(!new)>(p: Program<S>, clauses: seq<Clause<S>>, fuel: nat)
    requires Acyclic(p.parent) && clauses != [] && Quiet(p, clauses, fuel)
    ensures Quiet(p, clauses[1..], fuel)
  {
    forall i, st: S | 0 <= i < |clauses[1..]|
      ensures Exec(p, clauses[1..][i].block, st, fuel).Normal?
    {
      assert clauses[1..][i] == clauses[i + 1];
    }
  }

  lemma {:induction false} ApplyNormal<S(!new)>(p: Program<S>, st: S, clauses: seq<Clause<S>>, fuel: nat)
    requires Acyclic(p.parent) && Quiet(p, clauses, fuel)
    ensures Apply(p, Normal(st), clauses, fuel) == Normal(RunFinallys(p, clauses, st, fuel))
    decreases |clauses|
  {
    if clauses != [] {
      QuietRest(p, clauses, fuel);
      var o := Exec(p, clauses[0].block, st, fuel);
      ApplyNormal(p, if clauses[0].Finally? then o.st else st, clauses[1..], fuel);
    }
  }

  lemma {:induction false} ApplyRaised<S(!new)>(p: Program<S>, e: Exn, st: S, clauses: seq<Clause<S>>, fuel: nat)
    requires Acyclic(p.parent) && Quiet(p, clauses, fuel)
    ensures Apply(p, Raised(e, st), clauses, fuel) == FirstMatching(p, clauses, e, st, fuel)
    decreases |clauses|
  {
    if clauses != [] {
      QuietRest(p, clauses, fuel);
      var c, rest := clauses[0], clauses[1..];
      var n := FirstMatch(p, clauses, e);
      if Matches(p, c, e) {
        assert clauses[..0] == [];
        ApplyNormal(p, Exec(p, c.block, c.bind(st, e), fuel).st, rest, fuel);
      } else {
        var u := if c.Finally? then Exec(p, c.block, st, fuel).st else st;
        ApplyRaised(p, e, u, rest, fuel);
        assert clauses[..n][1..] == rest[..n - 1];
        assert n < |clauses| ==> clauses[n + 1..] == rest[n..];
      }
    }
  }

  /** The nested tries do what the clauses say. When no clause block itself raises or jumps, an exception goes to the first
      matching catch in source order, with the finally blocks before and after it run at their places; without an
      exception only the finally blocks run. */
  lemma MultiClauseTry<S(!new)>(p: Program<S>, body: Stmt<S>, clauses: seq<Clause<S>>, st: S, fuel: nat)
    requires Acyclic(p.parent) && Quiet(p, clauses, fuel)
    ensures var o := Exec(p, body, st, fuel);
      && (o.Normal? ==> Exec(p, Nest(body, clauses), st, fuel) == Normal(RunFinallys(p, clauses, o.st, fuel)))
      && (o.Raised? ==> Exec(p, Nest(body, clauses), st, fuel) == FirstMatching(p, clauses, o.exn, o.st, fuel))
  {
    hide Exec, Nest, Apply, FirstMatching, RunFinallys;
    NestApplies(p, body, clauses, st, fuel);
    var o := Exec(p, body, st, fuel);
    if o.Normal? {
      ApplyNormal(p, o.st, clauses, fuel);
    } else if o.Raised? {
      ApplyRaised(p, o.exn, o.st, clauses, fuel);
    }
  }
}
