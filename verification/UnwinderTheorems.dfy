/** Whole programs: the emitted code ends exactly when the meaning with one flag does, and the same way; and as the source
    does, where the run comes to no clash. */
module UnwinderTheorems {
  import opened Options
  import opened Exceptions
  import opened Unwinder
  import opened UnwinderProofs
  import opened OneFlag

  /** Function 0 about to be entered, with nothing on any stack. */
  function Start<S>(st: S): Config<S> {
    Config(Running, 0, [], [], false, Exn(0, 0), st)
  }

  function Machine<S>(p: Program<S>, st: S, k: nat): Config<S>
    requires Acyclic(p.parent)
  {
    Steps(p, Code(p), Start(st), k)
  }

  predicate Halted(mode: Mode) {
    mode != Running && mode != Unwinding
  }

  function Source<S>(p: Program<S>, st: S, fuel: nat): Outcome<S>
    requires Acyclic(p.parent) && p.funcs != []
  {
    Exec(p, p.funcs[0], st, fuel)
  }

  /** The same, as the generated code has it; the flag starts out clear. */
  function InCode<S>(p: Program<S>, st: S, fuel: nat): Outcome<World<S>>
    requires Acyclic(p.parent) && p.funcs != []
  {
    Flagged(p, p.funcs[0], World(st, None), fuel)
  }

  /** What there is to see of a program that ends: its last state, and the exception if it died of one. */
  datatype End<S> = End(st: S, died: Option<Exn>)

  function EndOf<S>(o: Outcome<S>): Option<End<S>> {
    match o
    case Normal(st) => Some(End(st, None))
    case Returned(st) => Some(End(st, None))
    case Raised(e, st) => Some(End(st, Some(e)))
    case _ => None
  }

  function EndInCode<S>(o: Outcome<World<S>>): Option<End<S>> {
    var end := EndOf(o);
    if end.None? then None else Some(End(end.value.st.st, end.value.died))
  }

  /** The machine ended so: with the handler stack empty, and with the state and the exception it should. */
  ghost predicate Ended<S>(end: Option<End<S>>, c: Config<S>) {
    && end.Some? && c.st == end.value.st
    && match end.value.died
       case None => c.mode == Finished && c.handlers == []
       case Some(e) => c.mode == Uncaught(e)
  }

  /** Function 0 behind its annotation push. */
  function Inside<S>(st: S): Config<S> {
    Start(st).(pc := 1, handlers := [HAnnot])
  }

  lemma EnterMain<S>(p: Program<S>, st: S)
    requires Acyclic(p.parent) && p.funcs != []
    ensures Machine(p, st, 1) == Inside(st)
    ensures At(Code(p), p.funcs[0], 1, [])
    ensures 1 + Len(p.funcs[0]) < |Code(p)| && Code(p)[1 + Len(p.funcs[0])] == RReturnNil
  {
    hide Link, Steps, Len;
    FuncAt(p, 0);
    OneStep(p, Code(p), Start(st));
  }

  /** The outcome of function 0's body, and the end of the machine. */
  lemma ExitMain<S>(p: Program<S>, st: S, fuel: nat, j: nat, o: Outcome<World<S>>) returns (k: nat)
    requires Acyclic(p.parent) && p.funcs != []
    requires var fin := 1 + Len(p.funcs[0]);
      && Agrees(fin, [], fuel, Inside(st), o, j, Machine(p, st, 1 + j))
      && fin < |Code(p)| && Code(p)[fin] == RReturnNil
    ensures if o.OutOfFuel? then k >= fuel && !Halted(Machine(p, st, k).mode) else Ended(EndInCode(o), Machine(p, st, k))
  {
    hide Code, Steps, Len;
    assert AnnotPop([HAnnot]) == Some([]);
    k := 1 + j;
    if o.Normal? {
      StepsThen(p, Code(p), Start(st), 1 + j, 0);
      k := 1 + j + 1;
    } else if o.Raised? {
      StepsThen(p, Code(p), Start(st), 1 + j, 0);
      StepsThen(p, Code(p), Start(st), 1 + j + 1, 0);
      k := 1 + j + 2;
    }
  }

  lemma RunMain<S>(p: Program<S>, st: S, fuel: nat) returns (k: nat)
    requires Accepted(p) && p.funcs != []
    ensures var o := InCode(p, st, fuel);
      if o.OutOfFuel? then k >= fuel && !Halted(Machine(p, st, k).mode) else Ended(EndInCode(o), Machine(p, st, k))
  {
    hide Code, Steps, Flagged, Compiles, Len, Agrees, Ended, Emit;
    EnterMain(p, st);
    assert AnnotPop([HAnnot]) == Some([]);
    var j := Sim(p, p.funcs[0], 1, [], [], Inside(st), fuel);
    StepsAdd(p, Code(p), Start(st), 1, j);
    k := ExitMain(p, st, fuel, j, InCode(p, st, fuel));
  }

  lemma {:induction false} HaltedStays<S>(p: Program<S>, code: seq<Instr<S>>, c: Config<S>, k: nat)
    requires Acyclic(p.parent) && Halted(c.mode)
    ensures Steps(p, code, c, k) == c
  {
    if k > 0 {
      HaltedStays(p, code, c, k - 1);
    }
  }

  lemma HaltedLater<S>(p: Program<S>, st: S, j: nat, k: nat)
    requires Acyclic(p.parent) && j <= k && Halted(Machine(p, st, j).mode)
    ensures Machine(p, st, k) == Machine(p, st, j)
  {
    hide Steps;
    StepsAdd(p, Code(p), Start(st), j, k - j);
    HaltedStays(p, Code(p), Machine(p, st, j), k - j);
  }

  /** A machine that has halted within `k` steps ended as the meaning with one flag does, and that needs no more than `k`
      rounds and calls. */
  lemma MachineEndsAsFlagged<S>(p: Program<S>, st: S, k: nat, fuel: nat)
    requires Accepted(p) && p.funcs != [] && Halted(Machine(p, st, k).mode)
    ensures fuel > k ==> !InCode(p, st, fuel).OutOfFuel?
    ensures !InCode(p, st, fuel).OutOfFuel? ==> Ended(EndInCode(InCode(p, st, fuel)), Machine(p, st, k))
  {
    hide Machine, InCode, EndInCode;
    var l := RunMain(p, st, fuel);
    if k <= l {
      HaltedLater(p, st, k, l);
    } else if Halted(Machine(p, st, l).mode) {
      HaltedLater(p, st, l, k);
    }
  }

  lemma EndedHalts<S>(end: Option<End<S>>, c: Config<S>)
    requires Ended(end, c)
    ensures Halted(c.mode)
  {
  }

  /** The code of every program the compiler accepts, whatever is in its finally blocks, ends if and only if the meaning
      with one flag does, and ends the same way. */
  lemma FlaggedPreserved<S>(p: Program<S>, st: S)
    requires Accepted(p) && p.funcs != []
    ensures (exists k: nat :: Halted(Machine(p, st, k).mode)) <==> (exists fuel: nat :: !InCode(p, st, fuel).OutOfFuel?)
    ensures forall k: nat, fuel: nat :: Halted(Machine(p, st, k).mode) && !InCode(p, st, fuel).OutOfFuel? ==>
      Ended(EndInCode(InCode(p, st, fuel)), Machine(p, st, k))
  {
    hide Machine, InCode, Ended, EndInCode;
    forall k: nat | Halted(Machine(p, st, k).mode)
      ensures !InCode(p, st, k + 1).OutOfFuel?
    {
      MachineEndsAsFlagged(p, st, k, k + 1);
    }
    forall fuel: nat | !InCode(p, st, fuel).OutOfFuel?
      ensures exists k: nat :: Halted(Machine(p, st, k).mode)
    {
      var k := RunMain(p, st, fuel);
      EndedHalts(EndInCode(InCode(p, st, fuel)), Machine(p, st, k));
    }
    forall k: nat, fuel: nat | Halted(Machine(p, st, k).mode) && !InCode(p, st, fuel).OutOfFuel?
      ensures Ended(EndInCode(InCode(p, st, fuel)), Machine(p, st, k))
    {
      MachineEndsAsFlagged(p, st, k, fuel);
    }
  }

  /** No run of the program, however long, comes to a clash with the flag. */
  ghost predicate NeverClashes<S>(p: Program<S>, st: S)
    requires Acyclic(p.parent) && p.funcs != []
  {
    forall fuel: nat :: Throughout(NoClash, p, p.funcs[0], st, None, fuel)
  }

  lemma SourceInCode<S>(p: Program<S>, st: S, fuel: nat)
    requires Acyclic(p.parent) && p.funcs != [] && Throughout(NoClash, p, p.funcs[0], st, None, fuel)
    ensures InCode(p, st, fuel).OutOfFuel? == Source(p, st, fuel).OutOfFuel?
    ensures EndInCode(InCode(p, st, fuel)) == EndOf(Source(p, st, fuel))
  {
    NoClashExactly(p, p.funcs[0], st, None, fuel);
    hide Flagged, Exec;
  }

  /** The meaning of a program that never clashes is preserved: its code ends if and only if the program does, and ends the
      same way. */
  lemma MeaningPreserved<S>(p: Program<S>, st: S)
    requires Accepted(p) && p.funcs != [] && NeverClashes(p, st)
    ensures (exists k: nat :: Halted(Machine(p, st, k).mode)) <==> (exists fuel: nat :: !Source(p, st, fuel).OutOfFuel?)
    ensures forall k: nat, fuel: nat :: Halted(Machine(p, st, k).mode) && !Source(p, st, fuel).OutOfFuel? ==>
      Ended(EndOf(Source(p, st, fuel)), Machine(p, st, k))
  {
    FlaggedPreserved(p, st);
    hide Machine, InCode, Source, Ended, EndInCode, EndOf, Throughout;
    forall fuel: nat
      ensures InCode(p, st, fuel).OutOfFuel? == Source(p, st, fuel).OutOfFuel?
      ensures EndInCode(InCode(p, st, fuel)) == EndOf(Source(p, st, fuel))
    {
      SourceInCode(p, st, fuel);
    }
  }

  /** No program with plain finally blocks ever clashes. */
  lemma PlainNeverClashes<S>(p: Program<S>, quiet: set<nat>, st: S)
    requires PlainProgram(p, quiet) && p.funcs != []
    ensures NeverClashes(p, st)
  {
    hide Throughout;
    forall fuel: nat
      ensures Throughout(NoClash, p, p.funcs[0], st, None, fuel)
    {
      PlainIsSafe(p, quiet, p.funcs[0], [], st, fuel);
    }
  }

  // ----- the handler stack -----

  /** Handlers pushed since the function's annotation are all dropped with it. */
  lemma {:induction false} AnnotPopDropsTries(below: seq<Handler>, tries: seq<Handler>)
    requires forall i :: 0 <= i < |tries| ==> tries[i].HHandler?
    ensures AnnotPop((below + [HAnnot]) + tries) == Some(below)
    decreases |tries|
  {
    var all := (below + [HAnnot]) + tries;
    if tries == [] {
      assert all[..|all| - 1] == below;
    } else {
      assert all[..|all| - 1] == (below + [HAnnot]) + tries[..|tries| - 1];
      AnnotPopDropsTries(below, tries[..|tries| - 1]);
    }
  }

  /** The handler stack's discipline, for any statement in any program: a statement that runs through, or that a break or
      continue leaves, has the stacks it found; an exception leaves it with the handlers it found, ready to be offered;
      and a return, from however many tries, takes handlers and calls back to where they were before the function's
      annotation. */
  lemma HandlerDiscipline<S>(p: Program<S>, s: Stmt<S>, a: nat, skel: seq<StackerEntry>,
      stacker: seq<StackerEntry>, c: Config<S>, fuel: nat, below: seq<Handler>, tries: seq<Handler>) returns (k: nat)
    requires Ready(p, s, a, skel, stacker, c)
    requires c.handlers == (below + [HAnnot]) + tries && forall i :: 0 <= i < |tries| ==> tries[i].HHandler?
    ensures var o, d := Flagged(p, s, Seen(c), fuel), Steps(p, Code(p), c, k);
      && (o.Normal? || o.Broke? || o.Continued? ==>
        d.mode == Running && d.handlers == c.handlers && d.frames == c.frames && Seen(d) == o.st)
      && (o.Raised? ==> d.mode == Unwinding && d.handlers == c.handlers && d.exc == o.exn && d.st == o.st.st)
      && (o.Returned? && c.frames != [] ==>
        var top := |c.frames| - 1;
        d.mode == Running && d.handlers == below && d.pc == c.frames[top] && d.frames == c.frames[..top] && Seen(d) == o.st)
  {
    AnnotPopDropsTries(below, tries);
    k := Sim(p, s, a, skel, stacker, c, fuel);
    hide Flagged, Steps, Code, Ready;
  }
}
