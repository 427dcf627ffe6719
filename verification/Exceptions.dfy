/** The structured control of Ripe: loops, break n, continue n, calls, return, raise and try,
    with the meaning its user reads into them. A state is anything statements act on. */
module Exceptions {
  import opened Options

  type Klass = nat

  /** A raised object: its class, and what it carries. */
  datatype Exn = Exn(klass: Klass, payload: int)

  datatype Stmt<!S> =
    | Skip
    | Do(act: S -> S)
    | Seq(first: Stmt<S>, second: Stmt<S>)
    | If(cond: S -> bool, thn: Stmt<S>, els: Stmt<S>)
    | Loop(body: Stmt<S>)
    | Break(num: int)
    | Continue(num: int)
    | Return(act: S -> S)
    | Raise(exn: S -> Exn)
    | Call(f: nat)
    | TryCatch(body: Stmt<S>, klass: Option<Klass>, bind: (S, Exn) -> S, handler: Stmt<S>)
    | TryFinally(body: Stmt<S>, cleanup: Stmt<S>)

  /** Functions by number, and the parent of each class that has one. */
  datatype Program<!S> = Program(funcs: seq<Stmt<S>>, parent: map<Klass, Klass>)

  datatype Outcome<S> =
    | Normal(st: S)
    | Broke(num: int, st: S)
    | Continued(num: int, st: S)
    | Returned(st: S)
    | Raised(exn: Exn, st: S)
    | OutOfFuel

  // ----- classes -----

  /** Parents are older than their children, so chains of parents end. */
  predicate Acyclic(parent: map<Klass, Klass>) {
    forall c :: c in parent ==> parent[c] < c
  }

  /** `k` is `c` or one of its ancestors. */
  predicate IsA(parent: map<Klass, Klass>, c: Klass, k: Klass)
    requires Acyclic(parent)
    decreases c
  {
    c == k || (c in parent && IsA(parent, parent[c], k))
  }

  /** The class `n` steps up the chain of parents, while there is one. */
  function Up(parent: map<Klass, Klass>, c: Klass, n: nat): Option<Klass> {
    if n == 0 then Some(c)
    else
      var below := Up(parent, c, n - 1);
      if below.Some? && below.value in parent then Some(parent[below.value]) else None
  }

  lemma {:induction false} UpFromParent(parent: map<Klass, Klass>, c: Klass, n: nat)
    requires c in parent
    ensures Up(parent, c, n + 1) == Up(parent, parent[c], n)
  {
    if n > 0 {
      UpFromParent(parent, c, n - 1);
    } else {
      assert Up(parent, c, 0) == Some(c);
    }
  }

  lemma {:induction false} NothingAbove(parent: map<Klass, Klass>, c: Klass, n: nat)
    requires c !in parent
    ensures Up(parent, c, n + 1) == None
  {
    if n > 0 {
      NothingAbove(parent, c, n - 1);
    } else {
      assert Up(parent, c, 0) == Some(c);
    }
  }

  lemma {:induction false} StepsUp(parent: map<Klass, Klass>, c: Klass, k: Klass) returns (n: nat)
    requires Acyclic(parent) && IsA(parent, c, k)
    ensures Up(parent, c, n) == Some(k)
    decreases c
  {
    n := 0;
    assert Up(parent, c, 0) == Some(c);
    if c != k {
      n := StepsUp(parent, parent[c], k);
      UpFromParent(parent, c, n);
      n := n + 1;
    }
  }

  lemma {:induction false} UpIsA(parent: map<Klass, Klass>, c: Klass, k: Klass, n: nat)
    requires Acyclic(parent) && Up(parent, c, n) == Some(k)
    ensures IsA(parent, c, k)
    decreases n
  {
    assert Up(parent, c, 0) == Some(c);
    if n > 0 && c in parent {
      UpFromParent(parent, c, n - 1);
      UpIsA(parent, parent[c], k, n - 1);
    } else if n > 0 {
      NothingAbove(parent, c, n - 1);
    }
  }

  /** A class is an ancestor if and only if some number of steps up leads to it. */
  lemma IsAExactly(parent: map<Klass, Klass>, c: Klass, k: Klass)
    requires Acyclic(parent)
    ensures IsA(parent, c, k) <==> exists n: nat :: Up(parent, c, n) == Some(k)
  {
    hide *;
    if IsA(parent, c, k) {
      var n := StepsUp(parent, c, k);
      assert Up(parent, c, n) == Some(k);
    }
    if n: nat :| Up(parent, c, n) == Some(k) {
      UpIsA(parent, c, k, n);
    }
  }

  /** obj_eq_klass: true for the class of the object and for every class above it, and for no other. */
  method ObjEqKlass(parent: map<Klass, Klass>, e: Exn, k: Klass) returns (r: bool)
    requires Acyclic(parent)
    ensures r == IsA(parent, e.klass, k)
    ensures r <==> exists n: nat :: Up(parent, e.klass, n) == Some(k)
  {
    IsAExactly(parent, e.klass, k);
    var kl := e.klass;
    while true
      invariant IsA(parent, e.klass, k) == IsA(parent, kl, k)
      decreases kl
    {
      if kl == k {
        return true;
      }
      if kl !in parent {
        return false;
      }
      kl := parent[kl];
    }
  }

  predicate Catches(parent: map<Klass, Klass>, klass: Option<Klass>, e: Exn)
    requires Acyclic(parent)
  {
    klass.None? || IsA(parent, e.klass, klass.value)
  }

  // ----- meaning -----

  /** What a statement does, with `fuel` bounding nested calls and loop rounds. A raise goes to the innermost
      enclosing catch whose class is the raised one's or an ancestor of it; every finally in between runs once,
      innermost first. As in the generated code, `return` does not run the finally blocks it leaves. */
  function Exec<S>(p: Program<S>, s: Stmt<S>, st: S, fuel: nat): Outcome<S>
    requires Acyclic(p.parent)
    decreases fuel, s
  {
    match s
    case Skip => Normal(st)
    case Do(act) => Normal(act(st))
    case Seq(first, second) =>
      var o := Exec(p, first, st, fuel);
      if o.Normal? then Exec(p, second, o.st, fuel) else o
    case If(cond, thn, els) => if cond(st) then Exec(p, thn, st, fuel) else Exec(p, els, st, fuel)
    case Loop(body) =>
      if fuel == 0 then OutOfFuel
      else
        var o := Exec(p, body, st, fuel);
        (match o
         case Normal(u) => Exec(p, s, u, fuel - 1)
         case Continued(n, u) => if n == 1 then Exec(p, s, u, fuel - 1) else Continued(n - 1, u)
         case Broke(n, u) => if n == 1 then Normal(u) else Broke(n - 1, u)
         case _ => o)
    case Break(n) => Broke(n, st)
    case Continue(n) => Continued(n, st)
    case Return(act) => Returned(act(st))
    case Raise(exn) => Raised(exn(st), st)
    case Call(f) =>
      if fuel == 0 || f >= |p.funcs| then OutOfFuel
      else
        var o := Exec(p, p.funcs[f], st, fuel - 1);
        if o.Returned? then Normal(o.st) else o
    case TryCatch(body, klass, bind, handler) =>
      var o := Exec(p, body, st, fuel);
      if o.Raised? && Catches(p.parent, klass, o.exn) then Exec(p, handler, bind(o.st, o.exn), fuel) else o
    case TryFinally(body, cleanup) =>
      var o := Exec(p, body, st, fuel);
      (match o
       case Normal(u) => Exec(p, cleanup, u, fuel)
       case Raised(e, u) =>
         var c := Exec(p, cleanup, u, fuel);
         if c.Normal? then Raised(e, c.st) else c
       case _ => o)
  }

  // ----- meaning with the runtime's one flag -----

  /** The state, and the exception under way where stack_unwinding is set. */
  datatype World<S> = World(st: S, pending: Option<Exn>)

  /** What the generated code makes of a statement: stack_unwinding is one flag for the whole thread. A raise sets it, a
      catch clears it, a finally block goes on unwinding at its end when it is set, and nothing else looks at it. */
  function Flagged<S>(p: Program<S>, s: Stmt<S>, w: World<S>, fuel: nat): (o: Outcome<World<S>>)
    requires Acyclic(p.parent)
    ensures o.Raised? ==> o.st.pending == Some(o.exn)
    decreases fuel, s
  {
    match s
    case Skip => Normal(w)
    case Do(act) => Normal(w.(st := act(w.st)))
    case Seq(first, second) =>
      var o := Flagged(p, first, w, fuel);
      if o.Normal? then Flagged(p, second, o.st, fuel) else o
    case If(cond, thn, els) => if cond(w.st) then Flagged(p, thn, w, fuel) else Flagged(p, els, w, fuel)
    case Loop(body) =>
      if fuel == 0 then OutOfFuel
      else
        var o := Flagged(p, body, w, fuel);
        (match o
         case Normal(u) => Flagged(p, s, u, fuel - 1)
         case Continued(n, u) => if n == 1 then Flagged(p, s, u, fuel - 1) else Continued(n - 1, u)
         case Broke(n, u) => if n == 1 then Normal(u) else Broke(n - 1, u)
         case _ => o)
    case Break(n) => Broke(n, w)
    case Continue(n) => Continued(n, w)
    case Return(act) => Returned(w.(st := act(w.st)))
    case Raise(exn) => Raised(exn(w.st), World(w.st, Some(exn(w.st))))
    case Call(f) =>
      if fuel == 0 || f >= |p.funcs| then OutOfFuel
      else
        var o := Flagged(p, p.funcs[f], w, fuel - 1);
        if o.Returned? then Normal(o.st) else o
    case TryCatch(body, klass, bind, handler) =>
      var o := Flagged(p, body, w, fuel);
      if o.Raised? && Catches(p.parent, klass, o.exn) then Flagged(p, handler, World(bind(o.st.st, o.exn), None), fuel) else o
    case TryFinally(body, cleanup) =>
      var o := Flagged(p, body, w, fuel);
      if o.Normal? || o.Raised? then Resume(Flagged(p, cleanup, o.st, fuel)) else o
  }

  /** The end of a finally block. */
  function Resume<S>(o: Outcome<World<S>>): Outcome<World<S>> {
    if o.Normal? && o.st.pending.Some? then Raised(o.st.pending.value, o.st) else o
  }

  // ----- programs whose finally blocks cannot meet the flag -----

  /** No try in the statement, nor in any function it can call: `quiet` names functions known to have none. */
  predicate TryFree<S>(s: Stmt<S>, quiet: set<nat>) {
    match s
    case Seq(first, second) => TryFree(first, quiet) && TryFree(second, quiet)
    case If(_, thn, els) => TryFree(thn, quiet) && TryFree(els, quiet)
    case Loop(body) => TryFree(body, quiet)
    case Call(f) => f in quiet
    case TryCatch(_, _, _, _) => false
    case TryFinally(_, _) => false
    case _ => true
  }

  predicate NoReturn<S>(s: Stmt<S>) {
    match s
    case Seq(first, second) => NoReturn(first) && NoReturn(second)
    case If(_, thn, els) => NoReturn(thn) && NoReturn(els)
    case Loop(body) => NoReturn(body)
    case Return(_) => false
    case TryCatch(body, _, _, handler) => NoReturn(body) && NoReturn(handler)
    case TryFinally(body, cleanup) => NoReturn(body) && NoReturn(cleanup)
    case _ => true
  }

  /** Every finally block is free of try and of return. */
  predicate PlainFinally<S>(s: Stmt<S>, quiet: set<nat>) {
    match s
    case Seq(first, second) => PlainFinally(first, quiet) && PlainFinally(second, quiet)
    case If(_, thn, els) => PlainFinally(thn, quiet) && PlainFinally(els, quiet)
    case Loop(body) => PlainFinally(body, quiet)
    case TryCatch(body, _, _, handler) => PlainFinally(body, quiet) && PlainFinally(handler, quiet)
    case TryFinally(body, cleanup) =>
      PlainFinally(body, quiet) && TryFree(cleanup, quiet) && NoReturn(cleanup)
    case _ => true
  }

  // ----- what those conditions count -----

  /** The statement itself and all statements in it, added up by what they count for. */
  function Tries<S>(s: Stmt<S>): nat {
    match s
    case Seq(first, second) => Tries(first) + Tries(second)
    case If(_, thn, els) => Tries(thn) + Tries(els)
    case Loop(body) => Tries(body)
    case TryCatch(body, _, _, handler) => 1 + Tries(body) + Tries(handler)
    case TryFinally(body, cleanup) => 1 + Tries(body) + Tries(cleanup)
    case _ => 0
  }

  function Returns<S>(s: Stmt<S>): nat {
    match s
    case Seq(first, second) => Returns(first) + Returns(second)
    case If(_, thn, els) => Returns(thn) + Returns(els)
    case Loop(body) => Returns(body)
    case Return(_) => 1
    case TryCatch(body, _, _, handler) => Returns(body) + Returns(handler)
    case TryFinally(body, cleanup) => Returns(body) + Returns(cleanup)
    case _ => 0
  }

  function Jumps<S>(s: Stmt<S>): nat {
    match s
    case Seq(first, second) => Jumps(first) + Jumps(second)
    case If(_, thn, els) => Jumps(thn) + Jumps(els)
    case Loop(body) => Jumps(body)
    case Break(_) => 1
    case Continue(_) => 1
    case TryCatch(body, _, _, handler) => Jumps(body) + Jumps(handler)
    case TryFinally(body, cleanup) => Jumps(body) + Jumps(cleanup)
    case _ => 0
  }

  function Calls<S>(s: Stmt<S>): set<nat> {
    match s
    case Seq(first, second) => Calls(first) + Calls(second)
    case If(_, thn, els) => Calls(thn) + Calls(els)
    case Loop(body) => Calls(body)
    case Call(f) => {f}
    case TryCatch(body, _, _, handler) => Calls(body) + Calls(handler)
    case TryFinally(body, cleanup) => Calls(body) + Calls(cleanup)
    case _ => {}
  }

  /** The finally blocks in the statement, nested ones too. */
  function Cleanups<S>(s: Stmt<S>): seq<Stmt<S>> {
    match s
    case Seq(first, second) => Cleanups(first) + Cleanups(second)
    case If(_, thn, els) => Cleanups(thn) + Cleanups(els)
    case Loop(body) => Cleanups(body)
    case TryCatch(body, _, _, handler) => Cleanups(body) + Cleanups(handler)
    case TryFinally(body, cleanup) => Cleanups(body) + ([cleanup] + Cleanups(cleanup))
    case _ => []
  }

  lemma {:induction false} TryFreeExactly<S>(s: Stmt<S>, quiet: set<nat>)
    ensures TryFree(s, quiet) <==> Tries(s) == 0 && Calls(s) <= quiet
    ensures Tries(s) == 0 ==> Cleanups(s) == []
  {
    match s
    case Seq(first, second) =>
      TryFreeExactly(first, quiet);
      TryFreeExactly(second, quiet);
    case If(_, thn, els) =>
      TryFreeExactly(thn, quiet);
      TryFreeExactly(els, quiet);
    case Loop(body) => TryFreeExactly(body, quiet);
    case _ =>
  }

  lemma {:induction false} NoReturnExactly<S>(s: Stmt<S>)
    ensures NoReturn(s) <==> Returns(s) == 0
  {
    match s
    case Seq(first, second) =>
      NoReturnExactly(first);
      NoReturnExactly(second);
    case If(_, thn, els) =>
      NoReturnExactly(thn);
      NoReturnExactly(els);
    case Loop(body) => NoReturnExactly(body);
    case TryCatch(body, _, _, handler) =>
      NoReturnExactly(body);
      NoReturnExactly(handler);
    case TryFinally(body, cleanup) =>
      NoReturnExactly(body);
      NoReturnExactly(cleanup);
    case _ =>
  }

  ghost predicate PlainBlocks<S>(blocks: seq<Stmt<S>>, quiet: set<nat>) {
    forall i :: 0 <= i < |blocks| ==> Tries(blocks[i]) == 0 && Calls(blocks[i]) <= quiet && Returns(blocks[i]) == 0
  }

  lemma PlainBlocksAppend<S>(a: seq<Stmt<S>>, b: seq<Stmt<S>>, quiet: set<nat>)
    ensures PlainBlocks(a + b, quiet) <==> PlainBlocks(a, quiet) && PlainBlocks(b, quiet)
  {
    hide Tries, Calls, Returns;
    var all := a + b;
    assert forall i :: 0 <= i < |a| ==> all[i] == a[i];
    assert forall i :: 0 <= i < |b| ==> all[|a| + i] == b[i];
  }

  /** Plain means what it counts: no finally block holds a try or a return, or calls anything but quiet functions. */
  lemma {:induction false} PlainExactly<S>(s: Stmt<S>, quiet: set<nat>)
    ensures PlainFinally(s, quiet) <==> PlainBlocks(Cleanups(s), quiet)
  {
    hide Tries, Calls, Returns;
    match s
    case Seq(first, second) =>
      PlainExactly(first, quiet);
      PlainExactly(second, quiet);
      PlainBlocksAppend(Cleanups(first), Cleanups(second), quiet);
    case If(_, thn, els) =>
      PlainExactly(thn, quiet);
      PlainExactly(els, quiet);
      PlainBlocksAppend(Cleanups(thn), Cleanups(els), quiet);
    case Loop(body) => PlainExactly(body, quiet);
    case TryCatch(body, _, _, handler) =>
      PlainExactly(body, quiet);
      PlainExactly(handler, quiet);
      PlainBlocksAppend(Cleanups(body), Cleanups(handler), quiet);
    case TryFinally(body, cleanup) =>
      PlainExactly(body, quiet);
      TryFreeExactly(cleanup, quiet);
      NoReturnExactly(cleanup);
      PlainBlocksAppend(Cleanups(body), [cleanup] + Cleanups(cleanup), quiet);
      PlainBlocksAppend([cleanup], Cleanups(cleanup), quiet);
      assert [cleanup][0] == cleanup;
      assert PlainBlocks([cleanup], quiet) <==> TryFree(cleanup, quiet) && NoReturn(cleanup);
    case _ =>
  }

  lemma {:induction false} NoReturnOutcome<S>(p: Program<S>, s: Stmt<S>, st: S, fuel: nat)
    requires Acyclic(p.parent) && NoReturn(s)
    ensures !Exec(p, s, st, fuel).Returned?
    decreases fuel, s
  {
    match s
    case Seq(first, second) =>
      NoReturnOutcome(p, first, st, fuel);
      var o := Exec(p, first, st, fuel);
      if o.Normal? { NoReturnOutcome(p, second, o.st, fuel); }
    case If(cond, thn, els) =>
      NoReturnOutcome(p, thn, st, fuel);
      NoReturnOutcome(p, els, st, fuel);
    case Loop(body) =>
      if fuel > 0 {
        NoReturnOutcome(p, body, st, fuel);
        var o := Exec(p, body, st, fuel);
        if o.Normal? || (o.Continued? && o.num == 1) { NoReturnOutcome(p, s, o.st, fuel - 1); }
      }
    case TryCatch(body, klass, bind, handler) =>
      NoReturnOutcome(p, body, st, fuel);
      var o := Exec(p, body, st, fuel);
      if o.Raised? { NoReturnOutcome(p, handler, bind(o.st, o.exn), fuel); }
    case TryFinally(body, cleanup) =>
      NoReturnOutcome(p, body, st, fuel);
      var o := Exec(p, body, st, fuel);
      if o.Normal? || o.Raised? { NoReturnOutcome(p, cleanup, o.st, fuel); }
    case _ =>
  }
}
