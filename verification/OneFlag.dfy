/** Where one unwinding flag for the whole thread is enough. The meaning with the flag is compared with the meaning the
    source is read to have, try by try: for each, exactly when the two part. */
module OneFlag {
  import opened Options
  import opened Exceptions
  import opened Unwinder
  import opened UnwinderProofs

  /** The outcome, with the flag as it was before; a raise sets it. */
  function With<S>(o: Outcome<S>, pending: Option<Exn>): Outcome<World<S>> {
    match o
    case Normal(st) => Normal(World(st, pending))
    case Broke(n, st) => Broke(n, World(st, pending))
    case Continued(n, st) => Continued(n, World(st, pending))
    case Returned(st) => Returned(World(st, pending))
    case Raised(e, st) => Raised(e, World(st, Some(e)))
    case OutOfFuel => OutOfFuel
  }

  /** The statement's code ends as the statement does, and leaves the flag, and the exception it is set for, as it found
      them. */
  ghost predicate Same<S>(p: Program<S>, s: Stmt<S>, st: S, pending: Option<Exn>, fuel: nat)
    requires Acyclic(p.parent)
  {
    Flagged(p, s, World(st, pending), fuel) == With(Exec(p, s, st, fuel), pending)
  }

  // ----- one try -----

  predicate Leaves<S>(o: Outcome<S>) {
    o.Returned? || o.Broke? || o.Continued?
  }

  predicate Caught<S>(p: Program<S>, s: Stmt<S>, o: Outcome<S>)
    requires Acyclic(p.parent) && s.TryCatch?
  {
    o.Raised? && Catches(p.parent, s.klass, o.exn)
  }

  /** No clash with the flag at this statement. A try with a finally clashes when it runs through under a set flag, or when its
      finally block leaves by a jump or a return while the exception of its own body is under way; a try with a catch
      when it catches under a set flag and its handler does not raise. */
  predicate Safe<S>(p: Program<S>, s: Stmt<S>, st: S, pending: Option<Exn>, fuel: nat)
    requires Acyclic(p.parent)
  {
    match s
    case TryFinally(body, cleanup) =>
      var o := Exec(p, body, st, fuel);
      && (o.Normal? && pending.Some? ==> !Exec(p, cleanup, o.st, fuel).Normal?)
      && (o.Raised? && pending != Some(o.exn) ==> !Leaves(Exec(p, cleanup, o.st, fuel)))
    case TryCatch(body, _, bind, handler) =>
      var o := Exec(p, body, st, fuel);
      Caught(p, s, o) && pending.Some? ==>
        var h := Exec(p, handler, bind(o.st, o.exn), fuel);
        h.Raised? || h.OutOfFuel?
    case _ => true
  }

  /** A try whose parts mean the same means the same itself, if and only if it is safe. */
  lemma FinallyExactly<S>(p: Program<S>, s: Stmt<S>, st: S, pending: Option<Exn>, fuel: nat)
    requires Acyclic(p.parent) && s.TryFinally? && Same(p, s.body, st, pending, fuel)
    requires var o := Exec(p, s.body, st, fuel);
      && (o.Normal? ==> Same(p, s.cleanup, o.st, pending, fuel))
      && (o.Raised? ==> Same(p, s.cleanup, o.st, Some(o.exn), fuel))
    ensures Same(p, s, st, pending, fuel) <==> Safe(p, s, st, pending, fuel)
  {
  }

  lemma CatchExactly<S>(p: Program<S>, s: Stmt<S>, st: S, pending: Option<Exn>, fuel: nat)
    requires Acyclic(p.parent) && s.TryCatch? && Same(p, s.body, st, pending, fuel)
    requires var o := Exec(p, s.body, st, fuel);
      Caught(p, s, o) ==> Same(p, s.handler, s.bind(o.st, o.exn), None, fuel)
    ensures Same(p, s, st, pending, fuel) <==> Safe(p, s, st, pending, fuel)
  {
  }

  /** A finally block without a try: with no exception under way before, the flag is left as it was if and only if it is not
      the case that the body raises and the finally block returns. */
  lemma ReturnExactly<S>(p: Program<S>, quiet: set<nat>, s: Stmt<S>, skel: seq<StackerEntry>, st: S, fuel: nat)
    requires PlainProgram(p, quiet) && s.TryFinally? && Compiles(s, skel, |p.funcs|)
    requires TryFree(s.cleanup, quiet) && Same(p, s.body, st, None, fuel)
    ensures var o := Exec(p, s.body, st, fuel);
      Same(p, s, st, None, fuel) <==> !(o.Raised? && Exec(p, s.cleanup, o.st, fuel).Returned?)
  {
    hide TryFree, Exec, Flagged;
    var o := Exec(p, s.body, st, fuel);
    if o.Normal? {
      TryFreeIsSame(p, quiet, s.cleanup, o.st, None, fuel);
    } else if o.Raised? {
      TryFreeIsSame(p, quiet, s.cleanup, o.st, Some(o.exn), fuel);
      NoJumpOut(p, s.cleanup, skel, InFinally, o.st, fuel);
    }
    FinallyExactly(p, s, st, None, fuel);
  }

  // ----- whole runs -----

  datatype Claim = MeansSame | NoClash

  ghost predicate Holds<S>(claim: Claim, p: Program<S>, s: Stmt<S>, st: S, pending: Option<Exn>, fuel: nat)
    requires Acyclic(p.parent)
  {
    match claim
    case MeansSame => Same(p, s, st, pending, fuel)
    case NoClash => Safe(p, s, st, pending, fuel)
  }

  /** The claim holds of the statement and of all that its run comes to, in the source's meaning. */
  ghost predicate Throughout<S>(claim: Claim, p: Program<S>, s: Stmt<S>, st: S, pending: Option<Exn>, fuel: nat)
    requires Acyclic(p.parent)
    decreases fuel, s, 1
  {
    Holds(claim, p, s, st, pending, fuel) && PartsHold(claim, p, s, st, pending, fuel)
  }

  ghost predicate PartsHold<S>(claim: Claim, p: Program<S>, s: Stmt<S>, st: S, pending: Option<Exn>, fuel: nat)
    requires Acyclic(p.parent)
    decreases fuel, s, 0
  {
    match s
    case Seq(first, second) =>
      var o := Exec(p, first, st, fuel);
      Throughout(claim, p, first, st, pending, fuel) && (o.Normal? ==> Throughout(claim, p, second, o.st, pending, fuel))
    case If(cond, thn, els) =>
      if cond(st) then Throughout(claim, p, thn, st, pending, fuel) else Throughout(claim, p, els, st, pending, fuel)
    case Loop(body) =>
      fuel > 0 ==>
        var o := Exec(p, body, st, fuel);
        && Throughout(claim, p, body, st, pending, fuel)
        && (o.Normal? || (o.Continued? && o.num == 1) ==> Throughout(claim, p, s, o.st, pending, fuel - 1))
    case Call(f) => fuel > 0 && f < |p.funcs| ==> Throughout(claim, p, p.funcs[f], st, pending, fuel - 1)
    case TryCatch(body, _, bind, handler) =>
      var o := Exec(p, body, st, fuel);
      && Throughout(claim, p, body, st, pending, fuel)
      && (Caught(p, s, o) ==> Throughout(claim, p, handler, bind(o.st, o.exn), None, fuel))
    case TryFinally(body, cleanup) =>
      var o := Exec(p, body, st, fuel);
      && Throughout(claim, p, body, st, pending, fuel)
      && (o.Normal? ==> Throughout(claim, p, cleanup, o.st, pending, fuel))
      && (o.Raised? ==> Throughout(claim, p, cleanup, o.st, Some(o.exn), fuel))
    case _ => true
  }

  /** A statement whose parts mean the same means the same if and only if it is safe: only a try looks at the flag. */
  lemma SafeExactly<S>(p: Program<S>, s: Stmt<S>, st: S, pending: Option<Exn>, fuel: nat)
    requires Acyclic(p.parent) && PartsHold(MeansSame, p, s, st, pending, fuel)
    ensures Same(p, s, st, pending, fuel) <==> Safe(p, s, st, pending, fuel)
  {
    if s.TryFinally? || s.TryCatch? {
      hide Exec, Flagged, Same, Safe;
      if s.TryFinally? {
        FinallyExactly(p, s, st, pending, fuel);
      } else {
        CatchExactly(p, s, st, pending, fuel);
      }
    }
  }

  lemma {:induction false} PartsExactly<S>(p: Program<S>, s: Stmt<S>, st: S, pending: Option<Exn>, fuel: nat)
    requires Acyclic(p.parent)
    ensures PartsHold(MeansSame, p, s, st, pending, fuel) <==> PartsHold(NoClash, p, s, st, pending, fuel)
    decreases fuel, s, 0
  {
    hide Exec, Holds;
    match s
    case Seq(first, second) =>
      var o := Exec(p, first, st, fuel);
      NoClashExactly(p, first, st, pending, fuel);
      if o.Normal? { NoClashExactly(p, second, o.st, pending, fuel); }
    case If(cond, thn, els) => NoClashExactly(p, if cond(st) then thn else els, st, pending, fuel);
    case Loop(body) =>
      if fuel > 0 {
        var o := Exec(p, body, st, fuel);
        NoClashExactly(p, body, st, pending, fuel);
        if o.Normal? || (o.Continued? && o.num == 1) { NoClashExactly(p, s, o.st, pending, fuel - 1); }
      }
    case Call(f) =>
      if fuel > 0 && f < |p.funcs| { NoClashExactly(p, p.funcs[f], st, pending, fuel - 1); }
    case TryCatch(body, klass, bind, handler) =>
      var o := Exec(p, body, st, fuel);
      NoClashExactly(p, body, st, pending, fuel);
      if Caught(p, s, o) { NoClashExactly(p, handler, bind(o.st, o.exn), None, fuel); }
    case TryFinally(body, cleanup) =>
      var o := Exec(p, body, st, fuel);
      NoClashExactly(p, body, st, pending, fuel);
      if o.Normal? { NoClashExactly(p, cleanup, o.st, pending, fuel); }
      if o.Raised? { NoClashExactly(p, cleanup, o.st, Some(o.exn), fuel); }
    case _ =>
  }

  /** Throughout a run the code means what the source means, if and only if the run comes to no clash: a condition on the
      source's own run. */
  lemma {:induction false} NoClashExactly<S>(p: Program<S>, s: Stmt<S>, st: S, pending: Option<Exn>, fuel: nat)
    requires Acyclic(p.parent)
    ensures Throughout(MeansSame, p, s, st, pending, fuel) <==> Throughout(NoClash, p, s, st, pending, fuel)
    decreases fuel, s, 1
  {
    hide Exec, Flagged, Same, Safe, PartsHold;
    PartsExactly(p, s, st, pending, fuel);
    if PartsHold(MeansSame, p, s, st, pending, fuel) {
      SafeExactly(p, s, st, pending, fuel);
    }
  }

  // ----- programs that cannot clash -----

  /** The finally blocks hold no return and no try, and `quiet` functions have no try. */
  ghost predicate PlainProgram<S>(p: Program<S>, quiet: set<nat>) {
    && Accepted(p)
    && forall f :: 0 <= f < |p.funcs| ==> PlainFinally(p.funcs[f], quiet) && (f in quiet ==> TryFree(p.funcs[f], quiet))
  }

  /** Without a try nothing clashes. */
  lemma {:induction false} TryFreeIsSafe<S>(p: Program<S>, quiet: set<nat>, s: Stmt<S>, st: S, pending: Option<Exn>, fuel: nat)
    requires PlainProgram(p, quiet) && TryFree(s, quiet)
    ensures Throughout(NoClash, p, s, st, pending, fuel)
    decreases fuel, s
  {
    match s
    case Seq(first, second) =>
      var o := Exec(p, first, st, fuel);
      TryFreeIsSafe(p, quiet, first, st, pending, fuel);
      if o.Normal? { TryFreeIsSafe(p, quiet, second, o.st, pending, fuel); }
    case If(cond, thn, els) => TryFreeIsSafe(p, quiet, if cond(st) then thn else els, st, pending, fuel);
    case Loop(body) =>
      if fuel > 0 {
        var o := Exec(p, body, st, fuel);
        TryFreeIsSafe(p, quiet, body, st, pending, fuel);
        if o.Normal? || (o.Continued? && o.num == 1) { TryFreeIsSafe(p, quiet, s, o.st, pending, fuel - 1); }
      }
    case Call(f) =>
      if fuel > 0 && f < |p.funcs| { TryFreeIsSafe(p, quiet, p.funcs[f], st, pending, fuel - 1); }
    case _ =>
  }

  lemma TryFreeIsSame<S>(p: Program<S>, quiet: set<nat>, s: Stmt<S>, st: S, pending: Option<Exn>, fuel: nat)
    requires PlainProgram(p, quiet) && TryFree(s, quiet)
    ensures Same(p, s, st, pending, fuel)
  {
    TryFreeIsSafe(p, quiet, s, st, pending, fuel);
    NoClashExactly(p, s, st, pending, fuel);
  }

  /** A break or continue that a statement ends with finds its loop around the statement. */
  lemma {:induction false} JumpsCompile<S>(p: Program<S>, s: Stmt<S>, skel: seq<StackerEntry>, st: S, fuel: nat)
    requires Accepted(p) && Compiles(s, skel, |p.funcs|)
    ensures var o := Exec(p, s, st, fuel); o.Broke? || o.Continued? ==> StackerUnwind(skel, o.num).Some?
    decreases fuel, s, 0
  {
    match s
    case Seq(first, second) =>
      JumpsCompile(p, first, skel, st, fuel);
      var o := Exec(p, first, st, fuel);
      if o.Normal? { JumpsCompile(p, second, skel, o.st, fuel); }
    case If(cond, thn, els) => JumpsCompile(p, if cond(st) then thn else els, skel, st, fuel);
    case Loop(body) =>
      if fuel > 0 {
        var o := Exec(p, body, st, fuel);
        JumpsCompile(p, body, skel + [InLoop(0, 0)], st, fuel);
        if o.Broke? || o.Continued? { PushedUnwind(skel, InLoop(0, 0), o.num); }
        if o.Normal? || (o.Continued? && o.num == 1) { JumpsCompile(p, s, skel, o.st, fuel - 1); }
      }
    case Call(f) =>
      if fuel > 0 {
        JumpsCompile(p, p.funcs[f], [], st, fuel - 1);
        var o := Exec(p, p.funcs[f], st, fuel - 1);
        if o.Broke? || o.Continued? { NoLoopAround(o.num); }
      }
    case TryCatch(body, klass, bind, handler) =>
      NoJumpOut(p, body, skel, InTry, st, fuel);
      var o := Exec(p, body, st, fuel);
      if Caught(p, s, o) { NoJumpOut(p, handler, skel, InCatch, bind(o.st, o.exn), fuel); }
    case TryFinally(body, cleanup) =>
      NoJumpOut(p, body, skel, InTry, st, fuel);
      var o := Exec(p, body, st, fuel);
      if o.Normal? || o.Raised? { NoJumpOut(p, cleanup, skel, InFinally, o.st, fuel); }
    case _ =>
  }

  /** None leaves a try, catch or finally block. */
  lemma {:induction false} NoJumpOut<S>(p: Program<S>, s: Stmt<S>, skel: seq<StackerEntry>, el: StackerEntry, st: S, fuel: nat)
    requires Accepted(p) && !el.InLoop? && Compiles(s, skel + [el], |p.funcs|)
    ensures !Exec(p, s, st, fuel).Broke? && !Exec(p, s, st, fuel).Continued?
    decreases fuel, s, 1
  {
    hide Exec, Compiles;
    var o := Exec(p, s, st, fuel);
    if o.Broke? || o.Continued? {
      PushedUnwind(skel, el, o.num);
    }
    JumpsCompile(p, s, skel + [el], st, fuel);
  }

  /** A plain program's run never clashes. */
  lemma {:induction false} PlainIsSafe<S>(p: Program<S>, quiet: set<nat>, s: Stmt<S>, skel: seq<StackerEntry>, st: S, fuel: nat)
    requires PlainProgram(p, quiet) && PlainFinally(s, quiet) && Compiles(s, skel, |p.funcs|)
    ensures Throughout(NoClash, p, s, st, None, fuel)
    decreases fuel, s
  {
    match s
    case Seq(first, second) =>
      var o := Exec(p, first, st, fuel);
      PlainIsSafe(p, quiet, first, skel, st, fuel);
      if o.Normal? { PlainIsSafe(p, quiet, second, skel, o.st, fuel); }
    case If(cond, thn, els) => PlainIsSafe(p, quiet, if cond(st) then thn else els, skel, st, fuel);
    case Loop(body) =>
      if fuel > 0 {
        var o := Exec(p, body, st, fuel);
        PlainIsSafe(p, quiet, body, skel + [InLoop(0, 0)], st, fuel);
        if o.Normal? || (o.Continued? && o.num == 1) { PlainIsSafe(p, quiet, s, skel, o.st, fuel - 1); }
      }
    case Call(f) =>
      if fuel > 0 { PlainIsSafe(p, quiet, p.funcs[f], [], st, fuel - 1); }
    case TryCatch(body, klass, bind, handler) =>
      var o := Exec(p, body, st, fuel);
      PlainIsSafe(p, quiet, body, skel + [InTry], st, fuel);
      if Caught(p, s, o) { PlainIsSafe(p, quiet, handler, skel + [InCatch], bind(o.st, o.exn), fuel); }
    case TryFinally(body, cleanup) =>
      var o := Exec(p, body, st, fuel);
      PlainIsSafe(p, quiet, body, skel + [InTry], st, fuel);
      if o.Normal? { TryFreeIsSafe(p, quiet, cleanup, o.st, None, fuel); }
      if o.Raised? {
        TryFreeIsSafe(p, quiet, cleanup, o.st, Some(o.exn), fuel);
        NoReturnOutcome(p, cleanup, o.st, fuel);
        NoJumpOut(p, cleanup, skel, InFinally, o.st, fuel);
      }
    case _ =>
  }
}
