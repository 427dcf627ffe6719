/** The code lang/generator.c emits for structured control, and the machine that runs it: C jumps and calls,
    with the handler stack and the unwinding loop of vm/stack.c. */
module Unwinder {
  import opened Options
  import opened Exceptions

  // ----- lang/stacker.c -----

  datatype StackerEntry = InLoop(breakLabel: nat, continueLabel: nat) | InTry | InCatch | InFinally

  /** stacker_unwind: the loop `num` levels up, or None where the compiler stops with an error. */
  function StackerUnwind(stacker: seq<StackerEntry>, num: int): (r: Option<StackerEntry>)
    ensures r.Some? ==> r.value.InLoop?
    decreases |stacker|
  {
    if num < 1 || stacker == [] then None
    else
      var el := stacker[|stacker| - 1];
      if !el.InLoop? then None
      else if num == 1 then Some(el)
      else StackerUnwind(stacker[..|stacker| - 1], num - 1)
  }

  /** The `num` innermost entries are there, and all are loops. */
  predicate LoopsUpTo(stacker: seq<StackerEntry>, num: int) {
    1 <= num <= |stacker| && forall i :: |stacker| - num <= i < |stacker| ==> stacker[i].InLoop?
  }

  lemma {:induction false} NthLoop(stacker: seq<StackerEntry>, num: int)
    ensures StackerUnwind(stacker, num).Some? <==> LoopsUpTo(stacker, num)
    ensures LoopsUpTo(stacker, num) ==> StackerUnwind(stacker, num) == Some(stacker[|stacker| - num])
    decreases |stacker|
  {
    if num > 1 && stacker != [] {
      NthLoop(stacker[..|stacker| - 1], num - 1);
    }
  }

  /** The loop `num` levels up is the num-th entry from the top, if that and all above it are loops; no try, catch or
      finally is crossed. */
  method StackerUnwindLoop(stacker: seq<StackerEntry>, num: int) returns (r: Option<StackerEntry>)
    ensures r.Some? <==> LoopsUpTo(stacker, num)
    ensures r.Some? ==> r.value == stacker[|stacker| - num]
    ensures r == StackerUnwind(stacker, num)
  {
    NthLoop(stacker, num);
    if num < 1 {
      return None;
    }
    var cur, left := |stacker|, num;
    assert stacker[..cur] == stacker;
    while true
      invariant 0 <= cur <= |stacker| && 1 <= left
      invariant StackerUnwind(stacker, num) == StackerUnwind(stacker[..cur], left)
      decreases cur
    {
      cur := cur - 1;
      left := left - 1;
      if cur < 0 {
        return None;
      }
      var el := stacker[cur];
      assert stacker[..cur + 1][..cur] == stacker[..cur];
      if el.InTry? || el.InCatch? || el.InFinally? {
        return None;
      }
      if left == 0 {
        return Some(el);
      }
    }
  }

  // ----- lang/generator.c -----

  datatype HandlerKind = KCatchAll | KCatch(klass: Klass) | KFinally

  datatype Instr<!S> =
    | Act(act: S -> S)
    | JumpUnless(cond: S -> bool, target: nat)
    | Jump(target: nat)
    | SetjmpPush(kind: HandlerKind, handler: nat)
    | StackPop
    | BindExc(bind: (S, Exn) -> S)
    | ContinueIfUnwinding
    | RaiseObject(exn: S -> Exn)
    | CallFunc(func: nat)
    | AnnotPush
    | RReturn(value: S -> S)
    | RReturnNil

  function Len<S>(s: Stmt<S>): nat {
    match s
    case Skip => 0
    case Seq(first, second) => Len(first) + Len(second)
    case If(_, thn, els) => Len(thn) + Len(els) + 2
    case Loop(body) => Len(body) + 1
    case TryCatch(body, _, _, handler) => Len(body) + Len(handler) + 4
    case TryFinally(body, cleanup) => Len(body) + Len(cleanup) + 3
    case _ => 1
  }

  /** The compiler accepts the statement: every break and continue finds its loop without crossing a try, catch or
      finally, and every call names one of the `funcs` functions there are. */
  predicate Compiles<S>(s: Stmt<S>, stacker: seq<StackerEntry>, funcs: nat) {
    match s
    case Break(n) => StackerUnwind(stacker, n).Some?
    case Continue(n) => StackerUnwind(stacker, n).Some?
    case Call(f) => f < funcs
    case Seq(first, second) => Compiles(first, stacker, funcs) && Compiles(second, stacker, funcs)
    case If(_, thn, els) => Compiles(thn, stacker, funcs) && Compiles(els, stacker, funcs)
    case Loop(body) => Compiles(body, stacker + [InLoop(0, 0)], funcs)
    case TryCatch(body, _, _, handler) =>
      Compiles(body, stacker + [InTry], funcs) && Compiles(handler, stacker + [InCatch], funcs)
    case TryFinally(body, cleanup) =>
      Compiles(body, stacker + [InTry], funcs) && Compiles(cleanup, stacker + [InFinally], funcs)
    case _ => true
  }

  /** Which jumps and calls the compiler accepts. */
  lemma JumpsExactly<S>(stacker: seq<StackerEntry>, n: int, f: nat, funcs: nat)
    ensures Compiles<S>(Break(n), stacker, funcs) <==> LoopsUpTo(stacker, n)
    ensures Compiles<S>(Continue(n), stacker, funcs) <==> LoopsUpTo(stacker, n)
    ensures Compiles<S>(Call(f), stacker, funcs) <==> f < funcs
  {
    NthLoop(stacker, n);
  }

  /** A statement without jumps and calls is always accepted. */
  lemma {:induction false} OthersCompile<S>(s: Stmt<S>, stacker: seq<StackerEntry>, funcs: nat)
    requires Jumps(s) == 0 && Calls(s) == {}
    ensures Compiles(s, stacker, funcs)
  {
    match s
    case Seq(first, second) =>
      OthersCompile(first, stacker, funcs);
      OthersCompile(second, stacker, funcs);
    case If(_, thn, els) =>
      OthersCompile(thn, stacker, funcs);
      OthersCompile(els, stacker, funcs);
    case Loop(body) => OthersCompile(body, stacker + [InLoop(0, 0)], funcs);
    case TryCatch(body, _, _, handler) =>
      OthersCompile(body, stacker + [InTry], funcs);
      OthersCompile(handler, stacker + [InCatch], funcs);
    case TryFinally(body, cleanup) =>
      OthersCompile(body, stacker + [InTry], funcs);
      OthersCompile(cleanup, stacker + [InFinally], funcs);
    case _ =>
  }

  function BreakLabel(stacker: seq<StackerEntry>, n: int): nat {
    var el := StackerUnwind(stacker, n);
    if el.Some? then el.value.breakLabel else 0
  }

  function ContinueLabel(stacker: seq<StackerEntry>, n: int): nat {
    var el := StackerUnwind(stacker, n);
    if el.Some? then el.value.continueLabel else 0
  }

  /** gen_stmt, gen_block and gen_try_stuff: the code for a statement placed at address `a`. */
  function Emit<S>(s: Stmt<S>, a: nat, stacker: seq<StackerEntry>): (code: seq<Instr<S>>)
    ensures |code| == Len(s)
    decreases s
  {
    match s
    case Skip => []
    case Do(f) => [Act(f)]
    case Seq(first, second) => Emit(first, a, stacker) + Emit(second, a + Len(first), stacker)
    case If(cond, thn, els) =>
      [JumpUnless(cond, a + Len(thn) + 2)]
      + (Emit(thn, a + 1, stacker)
         + ([Jump(a + Len(s))]
            + Emit(els, a + Len(thn) + 2, stacker)))
    case Loop(body) =>
      Emit(body, a, stacker + [InLoop(a + Len(s), a)]) + [Jump(a)]
    case Break(n) => [Jump(BreakLabel(stacker, n))]
    case Continue(n) => [Jump(ContinueLabel(stacker, n))]
    case Return(f) => [RReturn(f)]
    case Raise(exn) => [RaiseObject(exn)]
    case Call(f) => [CallFunc(f)]
    case TryCatch(body, klass, bind, handler) =>
      [SetjmpPush(if klass.Some? then KCatch(klass.value) else KCatchAll, a + Len(body) + 3)]
      + (Emit(body, a + 1, stacker + [InTry])
         + ([StackPop, Jump(a + Len(s)), BindExc(bind)]
            + Emit(handler, a + Len(body) + 4, stacker + [InCatch])))
    case TryFinally(body, cleanup) =>
      [SetjmpPush(KFinally, a + Len(body) + 2)]
      + (Emit(body, a + 1, stacker + [InTry])
         + ([StackPop]
            + (Emit(cleanup, a + Len(body) + 2, stacker + [InFinally])
               + [ContinueIfUnwinding])))
  }

  /** gen_code: a function's code, with its annotation and a final return. */
  function EmitFunc<S>(body: Stmt<S>, a: nat): seq<Instr<S>> {
    [AnnotPush] + (Emit(body, a + 1, []) + [RReturnNil])
  }

  function Entry<S>(funcs: seq<Stmt<S>>, f: nat): nat
    requires f <= |funcs|
  {
    if f == 0 then 0 else Entry(funcs, f - 1) + Len(funcs[f - 1]) + 2
  }

  /** The code of the first `n` functions, one after another. */
  function Link<S>(funcs: seq<Stmt<S>>, n: nat): (code: seq<Instr<S>>)
    requires n <= |funcs|
    ensures |code| == Entry(funcs, n)
  {
    if n == 0 then [] else Link(funcs, n - 1) + EmitFunc(funcs[n - 1], Entry(funcs, n - 1))
  }

  // ----- vm/stack.c and the C machine under it -----

  /** What setjmp records: where to resume, and how many calls were active. */
  datatype JmpBuf = JmpBuf(pc: nat, depth: nat)

  datatype Handler = HAnnot | HHandler(kind: HandlerKind, jb: JmpBuf)

  datatype Mode = Running | Unwinding | Finished | Uncaught(exn: Exn) | Crashed

  /** `frames` holds the return addresses of the active calls, `handlers` the handler stack, `unwinding` and `exc`
      the globals stack_unwinding and exc_obj. */
  datatype Config<!S> = Config(
    mode: Mode, pc: nat, frames: seq<nat>, handlers: seq<Handler>, unwinding: bool, exc: Exn, st: S)

  /** stack_annot_pop: the handlers below the topmost annotation, or None where it asserts. */
  function AnnotPop(h: seq<Handler>): Option<seq<Handler>> {
    if h == [] then None
    else if h[|h| - 1].HAnnot? then Some(h[..|h| - 1])
    else AnnotPop(h[..|h| - 1])
  }

  function LongJmp<S>(c: Config<S>, jb: JmpBuf): Config<S> {
    if jb.depth > |c.frames| then c.(mode := Crashed)
    else c.(mode := Running, pc := jb.pc, frames := c.frames[..jb.depth])
  }

  /** One round of the loop in stack_continue_unwinding. */
  function Unwind<S>(p: Program<S>, c: Config<S>): Config<S>
    requires Acyclic(p.parent)
  {
    if c.handlers == [] then c.(mode := Uncaught(c.exc))
    else
      var h := c.handlers[|c.handlers| - 1];
      var d := c.(handlers := c.handlers[..|c.handlers| - 1]);
      match h
      case HAnnot => d
      case HHandler(KCatchAll, jb) => LongJmp(d.(unwinding := false), jb)
      case HHandler(KCatch(k), jb) =>
        if IsA(p.parent, c.exc.klass, k) then LongJmp(d.(unwinding := false), jb) else d
      case HHandler(KFinally, jb) => LongJmp(d, jb)
  }

  /** RRETURN: the value is computed, handlers are dropped through the annotation, and the call returns. */
  function DoReturn<S>(c: Config<S>): Config<S> {
    match AnnotPop(c.handlers)
    case None => c.(mode := Crashed)
    case Some(h) =>
      if c.frames == [] then c.(handlers := h, pc := 0, mode := Finished)
      else c.(handlers := h, pc := c.frames[|c.frames| - 1], frames := c.frames[..|c.frames| - 1])
  }

  function Step<S>(p: Program<S>, code: seq<Instr<S>>, c: Config<S>): Config<S>
    requires Acyclic(p.parent)
  {
    match c.mode
    case Unwinding => Unwind(p, c)
    case Running =>
      if c.pc >= |code| then c.(mode := Crashed)
      else
        var next := c.(pc := c.pc + 1);
        (match code[c.pc]
         case Act(f) => next.(st := f(c.st))
         case JumpUnless(cond, target) => if cond(c.st) then next else c.(pc := target)
         case Jump(target) => c.(pc := target)
         case SetjmpPush(kind, handler) =>
           next.(handlers := c.handlers + [HHandler(kind, JmpBuf(handler, |c.frames|))])
         case StackPop =>
           if c.handlers == [] then c.(mode := Crashed)
           else next.(handlers := c.handlers[..|c.handlers| - 1])
         case BindExc(bind) => next.(st := bind(c.st, c.exc))
         case ContinueIfUnwinding => if c.unwinding then c.(mode := Unwinding) else next
         case RaiseObject(exn) => c.(mode := Unwinding, unwinding := true, exc := exn(c.st))
         case CallFunc(f) =>
           if f >= |p.funcs| then c.(mode := Crashed)
           else c.(pc := Entry(p.funcs, f), frames := c.frames + [c.pc + 1])
         case AnnotPush => next.(handlers := c.handlers + [HAnnot])
         case RReturn(f) => DoReturn(c.(st := f(c.st)))
         case RReturnNil => DoReturn(c))
    case _ => c
  }

  function Steps<S>(p: Program<S>, code: seq<Instr<S>>, c: Config<S>, k: nat): Config<S>
    requires Acyclic(p.parent)
    decreases k
  {
    if k == 0 then c else Steps(p, code, Step(p, code, c), k - 1)
  }
}
