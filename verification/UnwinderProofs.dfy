/** The emitted code of every program the compiler accepts does what Flagged says: the machine with its handler stack ends
    as the structured meaning with one flag does, with the same effects, and runs on when it does. */
module UnwinderProofs {
  import opened Options
  import opened Exceptions
  import opened Unwinder

  lemma {:induction false} StepsAdd<S>(p: Program<S>, code: seq<Instr<S>>, c: Config<S>, j: nat, k: nat)
    requires Acyclic(p.parent)
    ensures Steps(p, code, c, j + k) == Steps(p, code, Steps(p, code, c, j), k)
    decreases j
  {
    hide Step;
    if j > 0 {
      StepsAdd(p, code, Step(p, code, c), j - 1, k);
    }
  }

  /** A run of `j` steps, one more step, and `k` steps. */
  lemma StepsThen<S>(p: Program<S>, code: seq<Instr<S>>, c: Config<S>, j: nat, k: nat)
    requires Acyclic(p.parent)
    ensures Steps(p, code, c, j + 1 + k) == Steps(p, code, Step(p, code, Steps(p, code, c, j)), k)
    ensures Steps(p, code, c, j + 1) == Step(p, code, Steps(p, code, c, j))
  {
    hide Step;
    StepsAdd(p, code, c, j, 1 + k);
    StepsAdd(p, code, c, j, 1);
  }

  ghost predicate Similar(a: seq<StackerEntry>, b: seq<StackerEntry>) {
    |a| == |b| && forall i :: 0 <= i < |a| ==> a[i].InLoop? == b[i].InLoop?
  }

  lemma {:induction false} SimilarUnwind(a: seq<StackerEntry>, b: seq<StackerEntry>, n: int)
    requires Similar(a, b)
    ensures StackerUnwind(a, n).Some? == StackerUnwind(b, n).Some?
    decreases |a|
  {
    if a != [] {
      SimilarUnwind(a[..|a| - 1], b[..|b| - 1], n - 1);
    }
  }

  lemma PushedUnwind(stacker: seq<StackerEntry>, el: StackerEntry, n: int)
    ensures StackerUnwind(stacker + [el], n)
      == if n < 1 || !el.InLoop? then None else if n == 1 then Some(el) else StackerUnwind(stacker, n - 1)
  {
    assert (stacker + [el])[..|stacker|] == stacker;
  }

  /** The program is accepted by the compiler. */
  ghost predicate Accepted<S>(p: Program<S>) {
    Acyclic(p.parent) && forall f :: 0 <= f < |p.funcs| ==> Compiles(p.funcs[f], [], |p.funcs|)
  }

  /** The statement's code stands at `a`. */
  ghost predicate At<S>(code: seq<Instr<S>>, s: Stmt<S>, a: nat, stacker: seq<StackerEntry>) {
    Stands(code, a, Emit(s, a, stacker))
  }

  /** `part` stands at `a` in `code`. */
  ghost predicate Stands<T>(code: seq<T>, a: nat, part: seq<T>) {
    a + |part| <= |code| && code[a..a + |part|] == part
  }

  /** The two halves of a standing piece of code stand where they should. */
  lemma Halves<T>(code: seq<T>, a: nat, pre: seq<T>, post: seq<T>)
    requires Stands(code, a, pre + post)
    ensures Stands(code, a, pre) && Stands(code, a + |pre|, post)
  {
    var all := code[a..a + |pre| + |post|];
    assert forall i :: 0 <= i < |all| ==> all[i] == code[a + i];
    assert all == pre + post;
    assert pre == all[..|pre|];
    assert post == all[|pre|..];
  }

  lemma Head<T>(code: seq<T>, a: nat, x: T, post: seq<T>)
    requires Stands(code, a, [x] + post)
    ensures code[a] == x && Stands(code, a + 1, post)
  {
    Halves(code, a, [x], post);
    assert code[a..a + 1][0] == x;
  }

  lemma Triple<T>(code: seq<T>, a: nat, x: T, y: T, z: T, post: seq<T>)
    requires Stands(code, a, [x, y, z] + post)
    ensures code[a] == x && code[a + 1] == y && code[a + 2] == z && Stands(code, a + 3, post)
  {
    assert [x, y, z] + post == [x] + ([y] + ([z] + post));
    hide Stands;
    Head(code, a, x, [y] + ([z] + post));
    Head(code, a + 1, y, [z] + post);
    Head(code, a + 2, z, post);
  }

  lemma {:induction false} LinkAt<S>(funcs: seq<Stmt<S>>, n: nat, f: nat)
    requires f < n <= |funcs|
    ensures Stands(Link(funcs, n), Entry(funcs, f), EmitFunc(funcs[f], Entry(funcs, f)))
  {
    var before, last := Link(funcs, n - 1), EmitFunc(funcs[n - 1], Entry(funcs, n - 1));
    var code := before + last;
    if f < n - 1 {
      LinkAt(funcs, n - 1, f);
      hide *;
      assert before == code[..|before|];
    } else {
      hide *;
      assert code[|before|..] == last;
    }
  }

  lemma FuncAt<S>(p: Program<S>, f: nat)
    requires f < |p.funcs|
    ensures var code := Link(p.funcs, |p.funcs|);
      var a := Entry(p.funcs, f);
      && a + Len(p.funcs[f]) + 2 <= |code|
      && code[a] == AnnotPush
      && At(code, p.funcs[f], a + 1, [])
      && code[a + 1 + Len(p.funcs[f])] == RReturnNil
  {
    hide Link, Entry, Emit, Len;
    var code := Link(p.funcs, |p.funcs|);
    var a := Entry(p.funcs, f);
    LinkAt(p.funcs, |p.funcs|, f);
    var body: seq<Instr<S>> := Emit(p.funcs[f], a + 1, []);
    Head(code, a, AnnotPush, body + [RReturnNil]);
    Halves(code, a + 1, body, [RReturnNil]);
    Head(code, a + 1 + |body|, RReturnNil, []);
  }

  // ----- what the machine shows for each outcome -----

  /** What statements see of the machine; exc_obj matters while the flag is set. */
  function Seen<S>(c: Config<S>): World<S> {
    World(c.st, if c.unwinding then Some(c.exc) else None)
  }

  ghost predicate SameStacks<S>(c: Config<S>, d: Config<S>) {
    d.frames == c.frames && d.handlers == c.handlers
  }

  ghost predicate Agrees<S>(fin: nat, stacker: seq<StackerEntry>, fuel: nat, c: Config<S>, o: Outcome<World<S>>, k: nat, d: Config<S>) {
    match o
    case Normal(w) =>
      d.mode == Running && d.pc == fin && SameStacks(c, d) && Seen(d) == w
    case Broke(n, w) =>
      && StackerUnwind(stacker, n).Some? && k >= 1
      && d.mode == Running && d.pc == BreakLabel(stacker, n) && SameStacks(c, d) && Seen(d) == w
    case Continued(n, w) =>
      && StackerUnwind(stacker, n).Some? && k >= 1
      && d.mode == Running && d.pc == ContinueLabel(stacker, n) && SameStacks(c, d) && Seen(d) == w
    case Returned(w) =>
      Seen(d) == w && d == DoReturn(c.(st := d.st, unwinding := d.unwinding, exc := d.exc))
    case Raised(e, w) =>
      && d.mode == Unwinding && d.handlers == c.handlers && c.frames <= d.frames
      && d.unwinding && d.exc == e && Seen(d) == w
    case OutOfFuel =>
      k >= fuel && (d.mode == Running || d.mode == Unwinding)
  }

  /** Agreement carries over to an earlier configuration with the same stacks. */
  lemma Rebase<S>(fin: nat, stacker: seq<StackerEntry>, fuel: nat, b: Config<S>, c: Config<S>, o: Outcome<World<S>>, j: nat, k: nat, d: Config<S>)
    requires SameStacks(b, c) && b.mode == c.mode == Running && AnnotPop(c.handlers).Some?
    requires Agrees(fin, stacker, fuel, c, o, k, d)
    ensures Agrees(fin, stacker, fuel, b, o, j + k, d)
  {
  }

  // ----- where the parts of a statement stand -----

  // The code of each compound statement, part by part.

  lemma EmitSeq<S>(s: Stmt<S>, a: nat, stacker: seq<StackerEntry>)
    requires s.Seq?
    ensures Emit(s, a, stacker) == Emit(s.first, a, stacker) + Emit(s.second, a + Len(s.first), stacker)
  {
  }

  lemma EmitIf<S>(s: Stmt<S>, a: nat, stacker: seq<StackerEntry>)
    requires s.If?
    ensures Emit(s, a, stacker) == [JumpUnless(s.cond, a + Len(s.thn) + 2)]
      + (Emit(s.thn, a + 1, stacker) + ([Jump(a + Len(s))] + Emit(s.els, a + Len(s.thn) + 2, stacker)))
  {
  }

  lemma EmitLoop<S>(s: Stmt<S>, a: nat, stacker: seq<StackerEntry>)
    requires s.Loop?
    ensures Emit(s, a, stacker) == Emit(s.body, a, stacker + [InLoop(a + Len(s), a)]) + [Jump(a)]
  {
  }

  lemma EmitCatch<S>(s: Stmt<S>, a: nat, stacker: seq<StackerEntry>)
    requires s.TryCatch?
    ensures Emit(s, a, stacker) == [SetjmpPush(Kind(s.klass), a + Len(s.body) + 3)]
      + (Emit(s.body, a + 1, stacker + [InTry])
         + ([StackPop, Jump(a + Len(s)), BindExc(s.bind)] + Emit(s.handler, a + Len(s.body) + 4, stacker + [InCatch])))
  {
  }

  lemma EmitFinally<S>(s: Stmt<S>, a: nat, stacker: seq<StackerEntry>)
    requires s.TryFinally?
    ensures Emit(s, a, stacker) == [SetjmpPush(KFinally, a + Len(s.body) + 2)]
      + (Emit(s.body, a + 1, stacker + [InTry])
         + ([StackPop] + (Emit(s.cleanup, a + Len(s.body) + 2, stacker + [InFinally]) + [ContinueIfUnwinding])))
  {
  }

  lemma SeqAt<S>(code: seq<Instr<S>>, s: Stmt<S>, a: nat, stacker: seq<StackerEntry>)
    requires s.Seq? && At(code, s, a, stacker)
    ensures At(code, s.first, a, stacker) && At(code, s.second, a + Len(s.first), stacker)
  {
    hide Emit, Len;
    var first, second := Emit(s.first, a, stacker), Emit(s.second, a + Len(s.first), stacker);
    EmitSeq(s, a, stacker);
    Halves(code, a, first, second);
  }

  lemma IfAt<S>(code: seq<Instr<S>>, s: Stmt<S>, a: nat, stacker: seq<StackerEntry>)
    requires s.If? && At(code, s, a, stacker)
    ensures a + Len(s.thn) + 1 < |code|
    ensures code[a] == JumpUnless(s.cond, a + Len(s.thn) + 2)
    ensures At(code, s.thn, a + 1, stacker)
    ensures code[a + Len(s.thn) + 1] == Jump(a + Len(s))
    ensures At(code, s.els, a + Len(s.thn) + 2, stacker)
  {
    hide Emit, Len;
    var x: Instr<S>, y: Instr<S> := JumpUnless(s.cond, a + Len(s.thn) + 2), Jump(a + Len(s));
    var thn, els := Emit(s.thn, a + 1, stacker), Emit(s.els, a + Len(s.thn) + 2, stacker);
    EmitIf(s, a, stacker);
    Head(code, a, x, thn + ([y] + els));
    Halves(code, a + 1, thn, [y] + els);
    Head(code, a + 1 + |thn|, y, els);
  }

  lemma LoopAt<S>(code: seq<Instr<S>>, s: Stmt<S>, a: nat, stacker: seq<StackerEntry>)
    requires s.Loop? && At(code, s, a, stacker)
    ensures At(code, s.body, a, stacker + [InLoop(a + Len(s), a)])
    ensures a + Len(s.body) < |code| && code[a + Len(s.body)] == Jump(a)
  {
    hide Emit, Len;
    var x: Instr<S> := Jump(a);
    var body := Emit(s.body, a, stacker + [InLoop(a + Len(s), a)]);
    EmitLoop(s, a, stacker);
    Halves(code, a, body, [x]);
    Head(code, a + |body|, x, []);
  }

  function Kind(klass: Option<Klass>): HandlerKind {
    if klass.Some? then KCatch(klass.value) else KCatchAll
  }

  lemma CatchAt<S>(code: seq<Instr<S>>, s: Stmt<S>, a: nat, stacker: seq<StackerEntry>, b: nat)
    requires s.TryCatch? && At(code, s, a, stacker) && b == a + 1 + Len(s.body)
    ensures b + 2 < |code| && code[a] == SetjmpPush(Kind(s.klass), b + 2)
    ensures At(code, s.body, a + 1, stacker + [InTry])
    ensures code[b] == StackPop && code[b + 1] == Jump(a + Len(s)) && code[b + 2] == BindExc(s.bind)
    ensures At(code, s.handler, b + 3, stacker + [InCatch])
  {
    hide Emit, Len;
    var x: Instr<S>, y: Instr<S>, z: Instr<S> := SetjmpPush(Kind(s.klass), b + 2), Jump(a + Len(s)), BindExc(s.bind);
    var body, handler := Emit(s.body, a + 1, stacker + [InTry]), Emit(s.handler, b + 3, stacker + [InCatch]);
    EmitCatch(s, a, stacker);
    Head(code, a, x, body + ([StackPop, y, z] + handler));
    Halves(code, a + 1, body, [StackPop, y, z] + handler);
    Triple(code, b, StackPop, y, z, handler);
  }

  lemma FinallyAt<S>(code: seq<Instr<S>>, s: Stmt<S>, a: nat, stacker: seq<StackerEntry>, b: nat)
    requires s.TryFinally? && At(code, s, a, stacker) && b == a + 1 + Len(s.body)
    ensures b + 1 + Len(s.cleanup) < |code| && code[a] == SetjmpPush(KFinally, b + 1)
    ensures At(code, s.body, a + 1, stacker + [InTry])
    ensures code[b] == StackPop
    ensures At(code, s.cleanup, b + 1, stacker + [InFinally])
    ensures code[b + 1 + Len(s.cleanup)] == ContinueIfUnwinding
  {
    hide Emit, Len;
    var x: Instr<S> := SetjmpPush(KFinally, b + 1);
    var body, cleanup := Emit(s.body, a + 1, stacker + [InTry]), Emit(s.cleanup, b + 1, stacker + [InFinally]);
    EmitFinally(s, a, stacker);
    Head(code, a, x, body + ([StackPop] + (cleanup + [ContinueIfUnwinding])));
    Halves(code, a + 1, body, [StackPop] + (cleanup + [ContinueIfUnwinding]));
    Head(code, b, StackPop, cleanup + [ContinueIfUnwinding]);
    Halves(code, b + 1, cleanup, [ContinueIfUnwinding]);
    Head(code, b + 1 + |cleanup|, ContinueIfUnwinding, []);
  }

  // ----- the simulation -----

  function Code<S>(p: Program<S>): seq<Instr<S>> {
    Link(p.funcs, |p.funcs|)
  }

  /** The machine is about to run `s`, whose code stands at the program counter, inside a function. */
  ghost predicate Ready<S>(p: Program<S>, s: Stmt<S>, a: nat, skel: seq<StackerEntry>, stacker: seq<StackerEntry>, c: Config<S>) {
    && Acyclic(p.parent) && Accepted(p)
    && At(Code(p), s, a, stacker)
    && Similar(skel, stacker) && Compiles(s, skel, |p.funcs|)
    && c.mode == Running && c.pc == a && AnnotPop(c.handlers).Some?
  }

  ghost predicate Simulates<S>(p: Program<S>, s: Stmt<S>, a: nat, stacker: seq<StackerEntry>, c: Config<S>, fuel: nat, k: nat)
    requires Acyclic(p.parent)
  {
    Agrees(a + Len(s), stacker, fuel, c, Flagged(p, s, Seen(c), fuel), k, Steps(p, Code(p), c, k))
  }

  /** From a configuration with the same stacks reached in `j` steps, on to the outcome. */
  lemma After<S>(p: Program<S>, fin: nat, stacker: seq<StackerEntry>, fuel: nat, b: Config<S>, j: nat, o: Outcome<World<S>>, k: nat)
    requires Acyclic(p.parent)
    requires var c := Steps(p, Code(p), b, j);
      && SameStacks(b, c) && b.mode == c.mode == Running && AnnotPop(c.handlers).Some?
      && Agrees(fin, stacker, fuel, c, o, k, Steps(p, Code(p), c, k))
    ensures Agrees(fin, stacker, fuel, b, o, j + k, Steps(p, Code(p), b, j + k))
  {
    hide Step, Code;
    StepsAdd(p, Code(p), b, j, k);
    Rebase(fin, stacker, fuel, b, Steps(p, Code(p), b, j), o, j, k, Steps(p, Code(p), b, j + k));
  }

  lemma {:induction false} Sim<S>(p: Program<S>, s: Stmt<S>, a: nat, skel: seq<StackerEntry>,
      stacker: seq<StackerEntry>, c: Config<S>, fuel: nat) returns (k: nat)
    requires Ready(p, s, a, skel, stacker, c)
    ensures Simulates(p, s, a, stacker, c, fuel, k)
    decreases fuel, s, 2
  {
    match s
    case Skip => k := 0;
    case Seq(_, _) => k := SimSeq(p, s, a, skel, stacker, c, fuel);
    case If(_, _, _) => k := SimIf(p, s, a, skel, stacker, c, fuel);
    case Loop(_) => k := SimLoop(p, s, a, skel, stacker, c, fuel);
    case Call(_) => k := SimCall(p, s, a, skel, stacker, c, fuel);
    case TryCatch(_, _, _, _) => k := SimCatch(p, s, a, skel, stacker, c, fuel);
    case TryFinally(_, _) => k := SimFinally(p, s, a, skel, stacker, c, fuel);
    case _ => k := SimSimple(p, s, a, skel, stacker, c, fuel);
  }

  lemma SimilarPush(skel: seq<StackerEntry>, stacker: seq<StackerEntry>, x: StackerEntry, y: StackerEntry)
    requires Similar(skel, stacker) && x.InLoop? == y.InLoop?
    ensures Similar(skel + [x], stacker + [y])
  {
  }

  /** After the normal end of a piece of code, a jump on. */
  lemma JumpOn<S>(p: Program<S>, mid: nat, fin: nat, stacker: seq<StackerEntry>, fuel: nat, c: Config<S>, o: Outcome<World<S>>, k: nat)
    returns (l: nat)
    requires Acyclic(p.parent) && mid < |Code(p)| && Code(p)[mid] == Jump(fin)
    requires Agrees(mid, stacker, fuel, c, o, k, Steps(p, Code(p), c, k))
    ensures l >= k && Agrees(fin, stacker, fuel, c, o, l, Steps(p, Code(p), c, l))
    ensures o.Normal? ==> l == k + 1
  {
    hide Code, Steps;
    l := k;
    if o.Normal? {
      l := k + 1;
      StepsThen(p, Code(p), c, k, 0);
    }
  }

  lemma OneStep<S>(p: Program<S>, code: seq<Instr<S>>, c: Config<S>)
    requires Acyclic(p.parent)
    ensures Steps(p, code, c, 1) == Step(p, code, c)
  {
    hide Step;
    assert Steps(p, code, c, 1) == Steps(p, code, Step(p, code, c), 0);
  }

  lemma SimSimple<S>(p: Program<S>, s: Stmt<S>, a: nat, skel: seq<StackerEntry>,
      stacker: seq<StackerEntry>, c: Config<S>, fuel: nat) returns (k: nat)
    requires Ready(p, s, a, skel, stacker, c)
    requires s.Do? || s.Break? || s.Continue? || s.Return? || s.Raise?
    ensures Simulates(p, s, a, stacker, c, fuel, k)
  {
    hide Code;
    k := 1;
    var code := Code(p);
    assert code[a..a + 1][0] == Emit(s, a, stacker)[0];
    assert Steps(p, code, c, 1) == Steps(p, code, Step(p, code, c), 0);
    match s
    case Break(n) => SimilarUnwind(skel, stacker, n);
    case Continue(n) => SimilarUnwind(skel, stacker, n);
    case _ =>
  }

  lemma {:induction false} SimSeq<S>(p: Program<S>, s: Stmt<S>, a: nat, skel: seq<StackerEntry>,
      stacker: seq<StackerEntry>, c: Config<S>, fuel: nat) returns (k: nat)
    requires Ready(p, s, a, skel, stacker, c) && s.Seq?
    ensures Simulates(p, s, a, stacker, c, fuel, k)
    decreases fuel, s, 1
  {
    hide Code, Steps, Emit;
    SeqAt(Code(p), s, a, stacker);
    k := Sim(p, s.first, a, skel, stacker, c, fuel);
    var o := Flagged(p, s.first, Seen(c), fuel);
    if o.Normal? {
      var d := Steps(p, Code(p), c, k);
      var l := Sim(p, s.second, a + Len(s.first), skel, stacker, d, fuel);
      After(p, a + Len(s), stacker, fuel, c, k, Flagged(p, s.second, o.st, fuel), l);
      k := k + l;
    }
  }

  lemma IfStep<S>(p: Program<S>, s: Stmt<S>, a: nat, stacker: seq<StackerEntry>, c: Config<S>)
    requires Acyclic(p.parent) && s.If? && At(Code(p), s, a, stacker) && c.mode == Running && c.pc == a
    ensures Steps(p, Code(p), c, 1) == c.(pc := if s.cond(c.st) then a + 1 else a + Len(s.thn) + 2)
  {
    hide Code, Emit, Len, Steps;
    IfAt(Code(p), s, a, stacker);
    OneStep(p, Code(p), c);
  }

  lemma {:induction false} SimIf<S>(p: Program<S>, s: Stmt<S>, a: nat, skel: seq<StackerEntry>,
      stacker: seq<StackerEntry>, c: Config<S>, fuel: nat) returns (k: nat)
    requires Ready(p, s, a, skel, stacker, c) && s.If?
    ensures Simulates(p, s, a, stacker, c, fuel, k)
    decreases fuel, s, 1
  {
    hide Code, Emit, Accepted, Similar, StackerUnwind, Agrees, Step, Steps, AnnotPop, IsA;
    IfAt(Code(p), s, a, stacker);
    IfStep(p, s, a, stacker, c);
    var d := Steps(p, Code(p), c, 1);
    var o := Flagged(p, s, Seen(c), fuel);
    assert o == Flagged(p, if s.cond(c.st) then s.thn else s.els, Seen(c), fuel);
    hide Flagged;
    if s.cond(c.st) {
      var j := Sim(p, s.thn, a + 1, skel, stacker, d, fuel);
      After(p, a + 1 + Len(s.thn), stacker, fuel, c, 1, o, j);
      k := JumpOn(p, a + 1 + Len(s.thn), a + Len(s), stacker, fuel, c, o, 1 + j);
    } else {
      var j := Sim(p, s.els, a + Len(s.thn) + 2, skel, stacker, d, fuel);
      After(p, a + Len(s), stacker, fuel, c, 1, o, j);
      k := 1 + j;
    }
  }

  lemma {:induction false} SimLoop<S>(p: Program<S>, s: Stmt<S>, a: nat, skel: seq<StackerEntry>,
      stacker: seq<StackerEntry>, c: Config<S>, fuel: nat) returns (k: nat)
    requires Ready(p, s, a, skel, stacker, c) && s.Loop?
    ensures Simulates(p, s, a, stacker, c, fuel, k)
    decreases fuel, s, 1
  {
    hide Code, Emit, Accepted, Similar, StackerUnwind, Steps, Step;
    k := 0;
    if fuel == 0 {
      NoSteps(p, Code(p), c);
    } else {
      var code := Code(p);
      var here := InLoop(a + Len(s), a);
      LoopAt(code, s, a, stacker);
      SimilarPush(skel, stacker, InLoop(0, 0), here);
      k := Sim(p, s.body, a, skel + [InLoop(0, 0)], stacker + [here], c, fuel);
      var o := Flagged(p, s.body, Seen(c), fuel);
      if o.Normal? {
        k := JumpOn(p, a + Len(s.body), a, stacker + [here], fuel, c, o, k);
        k := LoopAgain(p, s, a, skel, stacker, c, fuel, k, o.st);
      } else if o.Continued? || o.Broke? {
        PushedUnwind(stacker, here, o.num);
        if o.Continued? && o.num == 1 {
          k := LoopAgain(p, s, a, skel, stacker, c, fuel, k, o.st);
        }
      }
    }
  }

  lemma NoSteps<S>(p: Program<S>, code: seq<Instr<S>>, c: Config<S>)
    requires Acyclic(p.parent)
    ensures Steps(p, code, c, 0) == c
  {
  }

  /** Back at the head of the loop, the next round. */
  lemma {:induction false} LoopAgain<S>(p: Program<S>, s: Stmt<S>, a: nat, skel: seq<StackerEntry>,
      stacker: seq<StackerEntry>, c: Config<S>, fuel: nat, j: nat, w: World<S>) returns (k: nat)
    requires Ready(p, s, a, skel, stacker, c) && s.Loop? && fuel > 0 && j >= 1
    requires var d := Steps(p, Code(p), c, j);
      d.mode == Running && d.pc == a && SameStacks(c, d) && Seen(d) == w
    ensures Agrees(a + Len(s), stacker, fuel, c, Flagged(p, s, w, fuel - 1), k, Steps(p, Code(p), c, k))
    decreases fuel, s, 0
  {
    hide Code, Emit, Accepted, Similar, StackerUnwind, Steps, Exec;
    var l := Sim(p, s, a, skel, stacker, Steps(p, Code(p), c, j), fuel - 1);
    After(p, a + Len(s), stacker, fuel - 1, c, j, Flagged(p, s, w, fuel - 1), l);
    k := j + l;
  }

  lemma AnnotPopPush(h: seq<Handler>, x: Handler)
    ensures AnnotPop(h + [x]) == if x.HAnnot? then Some(h) else AnnotPop(h)
  {
    assert (h + [x])[..|h|] == h;
  }

  lemma {:induction false} SimCall<S>(p: Program<S>, s: Stmt<S>, a: nat, skel: seq<StackerEntry>,
      stacker: seq<StackerEntry>, c: Config<S>, fuel: nat) returns (k: nat)
    requires Ready(p, s, a, skel, stacker, c) && s.Call?
    ensures Simulates(p, s, a, stacker, c, fuel, k)
    decreases fuel, s, 1
  {
    hide Code, Similar, StackerUnwind, Emit, Steps, Step, Agrees, Entry, Len;
    if fuel == 0 {
      k := 0;
      NoSteps(p, Code(p), c);
      OutOfFuelAgrees(a + 1, stacker, c);
    } else {
      var body, e := p.funcs[s.f], Entry(p.funcs, s.f);
      EnterCall(p, s, a, stacker, c);
      var d := Called(c, e + 1);
      var l := Sim(p, body, e + 1, [], [], d, fuel - 1);
      k := FromCallee(p, stacker, c, fuel, body, e, d, l);
    }
    assert Len(s) == 1 by { CallLen(s); }
  }

  lemma CallLen<S>(s: Stmt<S>)
    requires s.Call?
    ensures Len(s) == 1
  {
  }

  lemma OutOfFuelAgrees<S>(fin: nat, stacker: seq<StackerEntry>, c: Config<S>)
    requires c.mode == Running
    ensures Agrees(fin, stacker, 0, c, OutOfFuel, 0, c)
  {
  }

  lemma CallAt<S>(code: seq<Instr<S>>, s: Stmt<S>, a: nat, stacker: seq<StackerEntry>)
    requires s.Call? && At(code, s, a, stacker)
    ensures a < |code| && code[a] == CallFunc(s.f)
  {
    Head(code, a, CallFunc(s.f), []);
  }

  /** A call and the callee's annotation push. */
  lemma EnterCall<S>(p: Program<S>, s: Stmt<S>, a: nat, stacker: seq<StackerEntry>, c: Config<S>)
    requires Acyclic(p.parent) && s.Call? && s.f < |p.funcs| && At(Code(p), s, a, stacker)
    requires c.mode == Running && c.pc == a
    ensures var body, e := p.funcs[s.f], Entry(p.funcs, s.f);
      && Steps(p, Code(p), c, 2) == c.(pc := e + 1, frames := c.frames + [a + 1], handlers := c.handlers + [HAnnot])
      && e + 1 + Len(body) < |Code(p)| && Code(p)[e + 1 + Len(body)] == RReturnNil
      && At(Code(p), body, e + 1, [])
      && AnnotPop(c.handlers + [HAnnot]).Some?
  {
    hide Link, Steps, Emit, Entry, Len, Compiles, At;
    CallAt(Code(p), s, a, stacker);
    FuncAt(p, s.f);
    OneStep(p, Code(p), c);
    StepsThen(p, Code(p), c, 1, 0);
    AnnotPopPush(c.handlers, HAnnot);
  }

  /** The configuration in which a callee's body starts. */
  function Called<S>(c: Config<S>, start: nat): Config<S> {
    c.(pc := start, frames := c.frames + [c.pc + 1], handlers := c.handlers + [HAnnot])
  }

  /** The final return of a body that ran through takes the call back to the caller. */
  lemma NormalFromCallee<S>(p: Program<S>, code: seq<Instr<S>>, c: Config<S>, start: nat, fin: nat, o: Outcome<World<S>>, f: Config<S>)
    requires Acyclic(p.parent) && fin < |code| && code[fin] == RReturnNil && o.Normal?
    requires c.mode == Running
    requires f.mode == Running && f.pc == fin && SameStacks(Called(c, start), f) && Seen(f) == o.st
    ensures var g := Step(p, code, f); g.mode == Running && g.pc == c.pc + 1 && SameStacks(c, g) && Seen(g) == o.st
  {
    AnnotPopPush(c.handlers, HAnnot);
    assert (c.frames + [c.pc + 1])[..|c.frames|] == c.frames;
  }

  /** A return statement does the same at once. */
  lemma ReturnFromCallee<S>(c: Config<S>, start: nat, o: Outcome<World<S>>, f: Config<S>)
    requires c.mode == Running && o.Returned?
    requires Seen(f) == o.st && f == DoReturn(Called(c, start).(st := f.st, unwinding := f.unwinding, exc := f.exc))
    ensures f.mode == Running && f.pc == c.pc + 1 && SameStacks(c, f) && Seen(f) == o.st
  {
    AnnotPopPush(c.handlers, HAnnot);
    assert (c.frames + [c.pc + 1])[..|c.frames|] == c.frames;
  }

  /** Unwinding drops the callee's annotation. */
  lemma RaisedFromCallee<S>(p: Program<S>, code: seq<Instr<S>>, c: Config<S>, start: nat, f: Config<S>)
    requires Acyclic(p.parent) && f.mode == Unwinding
    requires f.handlers == c.handlers + [HAnnot] && c.frames + [c.pc + 1] <= f.frames
    ensures Step(p, code, f) == f.(handlers := c.handlers) && c.frames <= f.frames
  {
    assert (c.handlers + [HAnnot])[..|c.handlers|] == c.handlers;
  }

  lemma NoLoopAround(n: int)
    ensures StackerUnwind([], n).None?
  {
  }

  /** The callee's outcome, seen from the caller. */
  lemma FromCallee<S>(p: Program<S>, stacker: seq<StackerEntry>, c: Config<S>, fuel: nat, body: Stmt<S>, e: nat, d: Config<S>, l: nat) returns (k: nat)
    requires Acyclic(p.parent) && fuel > 0 && c.mode == Running && AnnotPop(c.handlers).Some?
    requires d == Steps(p, Code(p), c, 2) == Called(c, e + 1)
    requires e + 1 + Len(body) < |Code(p)| && Code(p)[e + 1 + Len(body)] == RReturnNil
    requires Agrees(e + 1 + Len(body), [], fuel - 1, d, Flagged(p, body, Seen(c), fuel - 1), l, Steps(p, Code(p), d, l))
    ensures var o := Flagged(p, body, Seen(c), fuel - 1);
      Agrees(c.pc + 1, stacker, fuel, c, if o.Returned? then Normal(o.st) else o, k, Steps(p, Code(p), c, k))
  {
    hide Code, Steps, Exec, Len, Step, AnnotPop, DoReturn, StackerUnwind;
    var code := Code(p);
    var o := Flagged(p, body, Seen(c), fuel - 1);
    StepsAdd(p, code, c, 2, l);
    StepsThen(p, code, c, 2 + l, 0);
    var f := Steps(p, code, d, l);
    match o
    case Normal(_) =>
      k := 2 + l + 1;
      NormalFromCallee(p, code, c, e + 1, e + 1 + Len(body), o, f);
    case Raised(_, _) =>
      k := 2 + l + 1;
      RaisedFromCallee(p, code, c, e + 1, f);
    case Returned(_) =>
      k := 2 + l;
      ReturnFromCallee(c, e + 1, o, f);
    case Broke(n, _) => k := 0; NoLoopAround(n);
    case Continued(n, _) => k := 0; NoLoopAround(n);
    case OutOfFuel => k := 2 + l;
  }

  /** No break or continue leaves a try, catch or finally block. */
  lemma Boundary<S>(fin: nat, stacker: seq<StackerEntry>, el: StackerEntry, fuel: nat, c: Config<S>, o: Outcome<World<S>>, k: nat, d: Config<S>)
    requires !el.InLoop? && Agrees(fin, stacker + [el], fuel, c, o, k, d)
    ensures !o.Broke? && !o.Continued?
    ensures Agrees(fin, stacker, fuel, c, o, k, d)
  {
    if o.Broke? || o.Continued? {
      PushedUnwind(stacker, el, o.num);
    }
  }

  /** The configuration inside a try block. */
  function Guarded<S>(c: Config<S>, kind: HandlerKind, target: nat): Config<S> {
    c.(pc := c.pc + 1, handlers := c.handlers + [HHandler(kind, JmpBuf(target, |c.frames|))])
  }

  lemma EnterTry<S>(p: Program<S>, c: Config<S>, kind: HandlerKind, target: nat)
    requires Acyclic(p.parent) && c.mode == Running && AnnotPop(c.handlers).Some?
    requires c.pc < |Code(p)| && Code(p)[c.pc] == SetjmpPush(kind, target)
    ensures Steps(p, Code(p), c, 1) == Guarded(c, kind, target)
    ensures AnnotPop(Guarded(c, kind, target).handlers) == AnnotPop(c.handlers)
  {
    hide Code;
    OneStep(p, Code(p), c);
    AnnotPopPush(c.handlers, HHandler(kind, JmpBuf(target, |c.frames|)));
  }

  /** Leaving a try block normally drops its handler. */
  lemma LeaveTry<S>(p: Program<S>, stacker: seq<StackerEntry>, c: Config<S>, kind: HandlerKind, target: nat, fuel: nat,
      o: Outcome<World<S>>, fin: nat, j: nat)
    requires Acyclic(p.parent) && c.mode == Running && AnnotPop(c.handlers).Some?
    requires Steps(p, Code(p), c, 1) == Guarded(c, kind, target)
    requires AnnotPop(Guarded(c, kind, target).handlers) == AnnotPop(c.handlers)
    requires fin < |Code(p)| && Code(p)[fin] == StackPop
    requires var d := Guarded(c, kind, target);
      Agrees(fin, stacker, fuel, d, o, j, Steps(p, Code(p), d, j)) && o.Normal?
    ensures Agrees(fin + 1, stacker, fuel, c, o, 1 + j + 1, Steps(p, Code(p), c, 1 + j + 1))
  {
    hide Code, Steps;
    StepsAdd(p, Code(p), c, 1, j);
    StepsThen(p, Code(p), c, 1 + j, 0);
  }

  /** An outcome that leaves the try block other than normally or by a raise leaves the statement too. */
  lemma LeaveTryOtherwise<S>(p: Program<S>, stacker: seq<StackerEntry>, c: Config<S>, kind: HandlerKind, target: nat, fuel: nat,
      o: Outcome<World<S>>, fin: nat, fin2: nat, j: nat)
    requires Acyclic(p.parent) && c.mode == Running && AnnotPop(c.handlers).Some?
    requires Steps(p, Code(p), c, 1) == Guarded(c, kind, target)
    requires AnnotPop(Guarded(c, kind, target).handlers) == AnnotPop(c.handlers)
    requires var d := Guarded(c, kind, target);
      Agrees(fin, stacker, fuel, d, o, j, Steps(p, Code(p), d, j)) && (o.Returned? || o.OutOfFuel?)
    ensures Agrees(fin2, stacker, fuel, c, o, 1 + j, Steps(p, Code(p), c, 1 + j))
  {
    hide Code, Steps;
    StepsAdd(p, Code(p), c, 1, j);
  }

  /** A raise out of the try block reaches its handler: the unwinding loop, having popped it, starts the handler's code
      with the calls that were active at the try; or passes on. */
  lemma ReachHandler<S>(p: Program<S>, stacker: seq<StackerEntry>, c: Config<S>, kind: HandlerKind, target: nat, fuel: nat,
      o: Outcome<World<S>>, fin: nat, fin2: nat, j: nat)
    requires Acyclic(p.parent) && c.mode == Running && AnnotPop(c.handlers).Some?
    requires Steps(p, Code(p), c, 1) == Guarded(c, kind, target)
    requires var d := Guarded(c, kind, target);
      Agrees(fin, stacker, fuel, d, o, j, Steps(p, Code(p), d, j)) && o.Raised?
    ensures var u := Steps(p, Code(p), c, 1 + j + 1);
      if kind.KCatch? && !IsA(p.parent, o.exn.klass, kind.klass) then Agrees(fin2, stacker, fuel, c, o, 1 + j + 1, u)
      else u == c.(pc := target, unwinding := kind.KFinally?, exc := o.exn, st := o.st.st)
  {
    hide Code, Steps, IsA;
    var d := Guarded(c, kind, target);
    StepsAdd(p, Code(p), c, 1, j);
    StepsThen(p, Code(p), c, 1 + j, 0);
    var v := Steps(p, Code(p), d, j);
    assert d.handlers[|d.handlers| - 1] == HHandler(kind, JmpBuf(target, |c.frames|));
    assert d.handlers[..|d.handlers| - 1] == c.handlers;
    assert v.frames[..|c.frames|] == c.frames;
  }

  lemma {:induction false} SimCatch<S>(p: Program<S>, s: Stmt<S>, a: nat, skel: seq<StackerEntry>,
      stacker: seq<StackerEntry>, c: Config<S>, fuel: nat) returns (k: nat)
    requires Ready(p, s, a, skel, stacker, c) && s.TryCatch?
    ensures Simulates(p, s, a, stacker, c, fuel, k)
    decreases fuel, s, 1
  {
    hide Code, Emit, Accepted, Similar, StackerUnwind, Steps, Step, Agrees, Len, IsA, At;
    var b := a + 1 + Len(s.body);
    CatchAt(Code(p), s, a, stacker, b);
    CatchLen(s);
    SimilarPush(skel, stacker, InTry, InTry);
    EnterTry(p, c, Kind(s.klass), b + 2);
    var d := Guarded(c, Kind(s.klass), b + 2);
    var j := Sim(p, s.body, a + 1, skel + [InTry], stacker + [InTry], d, fuel);
    var o := Flagged(p, s.body, Seen(c), fuel);
    Boundary(b, stacker, InTry, fuel, d, o, j, Steps(p, Code(p), d, j));
    if o.Normal? {
      LeaveTry(p, stacker, c, Kind(s.klass), b + 2, fuel, o, b, j);
      k := JumpOn(p, b + 1, a + Len(s), stacker, fuel, c, o, 1 + j + 1);
    } else if o.Raised? {
      ReachHandler(p, stacker, c, Kind(s.klass), b + 2, fuel, o, b, a + Len(s), j);
      k := 1 + j + 1;
      if Catches(p.parent, s.klass, o.exn) {
        var w := World(s.bind(o.st.st, o.exn), None);
        Bound(p, c, s, b, 1 + j + 1, o.exn, o.st.st);
        SimilarPush(skel, stacker, InCatch, InCatch);
        var h := c.(pc := b + 3, unwinding := false, exc := o.exn, st := w.st);
        var l := Sim(p, s.handler, b + 3, skel + [InCatch], stacker + [InCatch], h, fuel);
        var o2 := Flagged(p, s.handler, w, fuel);
        Boundary(b + 3 + Len(s.handler), stacker, InCatch, fuel, h, o2, l, Steps(p, Code(p), h, l));
        After(p, a + Len(s), stacker, fuel, c, 1 + j + 2, o2, l);
        k := 1 + j + 2 + l;
      }
    } else {
      LeaveTryOtherwise(p, stacker, c, Kind(s.klass), b + 2, fuel, o, b, a + Len(s), j);
      k := 1 + j;
    }
  }

  lemma CatchLen<S>(s: Stmt<S>)
    requires s.TryCatch?
    ensures Len(s) == Len(s.body) + Len(s.handler) + 4
  {
  }

  lemma FinallyLen<S>(s: Stmt<S>)
    requires s.TryFinally?
    ensures Len(s) == Len(s.body) + Len(s.cleanup) + 3
  {
  }

  /** The catch clause's name is bound to the raised object. */
  lemma Bound<S>(p: Program<S>, c: Config<S>, s: Stmt<S>, b: nat, j: nat, e: Exn, st: S)
    requires Acyclic(p.parent) && s.TryCatch? && c.mode == Running
    requires b + 2 < |Code(p)| && Code(p)[b + 2] == BindExc(s.bind)
    requires Steps(p, Code(p), c, j) == c.(pc := b + 2, unwinding := false, exc := e, st := st)
    ensures Steps(p, Code(p), c, j + 1) == c.(pc := b + 3, unwinding := false, exc := e, st := s.bind(st, e))
  {
    hide Code, Steps;
    StepsThen(p, Code(p), c, j, 0);
  }

  lemma {:induction false} SimFinally<S>(p: Program<S>, s: Stmt<S>, a: nat, skel: seq<StackerEntry>,
      stacker: seq<StackerEntry>, c: Config<S>, fuel: nat) returns (k: nat)
    requires Ready(p, s, a, skel, stacker, c) && s.TryFinally?
    ensures Simulates(p, s, a, stacker, c, fuel, k)
    decreases fuel, s, 1
  {
    hide Code, Emit, Accepted, Similar, StackerUnwind, Steps, Step, Agrees, Len;
    var b := a + 1 + Len(s.body);
    FinallyAt(Code(p), s, a, stacker, b);
    FinallyLen(s);
    SimilarPush(skel, stacker, InTry, InTry);
    EnterTry(p, c, KFinally, b + 1);
    var d := Guarded(c, KFinally, b + 1);
    var j := Sim(p, s.body, a + 1, skel + [InTry], stacker + [InTry], d, fuel);
    var o := Flagged(p, s.body, Seen(c), fuel);
    Boundary(b, stacker, InTry, fuel, d, o, j, Steps(p, Code(p), d, j));
    if o.Normal? {
      LeaveTry(p, stacker, c, KFinally, b + 1, fuel, o, b, j);
      AgreesNormal(b + 1, stacker, fuel, c, o, 1 + j + 1, Steps(p, Code(p), c, 1 + j + 1));
      k := SimCleanup(p, s, a, b, skel, stacker, c, fuel, 1 + j + 1);
    } else if o.Raised? {
      ReachHandler(p, stacker, c, KFinally, b + 1, fuel, o, b, a + Len(s), j);
      k := SimCleanup(p, s, a, b, skel, stacker, c, fuel, 1 + j + 1);
    } else {
      LeaveTryOtherwise(p, stacker, c, KFinally, b + 1, fuel, o, b, a + Len(s), j);
      k := 1 + j;
    }
  }

  lemma AgreesNormal<S>(fin: nat, stacker: seq<StackerEntry>, fuel: nat, c: Config<S>, o: Outcome<World<S>>, k: nat, d: Config<S>)
    requires Agrees(fin, stacker, fuel, c, o, k, d) && o.Normal? && c.mode == Running
    ensures d == c.(pc := fin, st := d.st, unwinding := d.unwinding, exc := d.exc) && Seen(d) == o.st
  {
  }

  /** The finally block, run with or without an exception under way, and the unwinding that may go on after it. */
  lemma {:induction false} SimCleanup<S>(p: Program<S>, s: Stmt<S>, a: nat, b: nat, skel: seq<StackerEntry>,
      stacker: seq<StackerEntry>, c: Config<S>, fuel: nat, j: nat) returns (k: nat)
    requires Ready(p, s, a, skel, stacker, c) && s.TryFinally? && b == a + 1 + Len(s.body)
    requires var d := Steps(p, Code(p), c, j);
      d == c.(pc := b + 1, st := d.st, unwinding := d.unwinding, exc := d.exc)
    ensures var o := Flagged(p, s.cleanup, Seen(Steps(p, Code(p), c, j)), fuel);
      Agrees(a + Len(s), stacker, fuel, c, Resume(o), k, Steps(p, Code(p), c, k))
    decreases fuel, s, 0
  {
    hide Code, Emit, Accepted, Similar, StackerUnwind, Steps, Step, Agrees, Len;
    FinallyAt(Code(p), s, a, stacker, b);
    FinallyLen(s);
    SimilarPush(skel, stacker, InFinally, InFinally);
    var d := Steps(p, Code(p), c, j);
    var l := Sim(p, s.cleanup, b + 1, skel + [InFinally], stacker + [InFinally], d, fuel);
    var o := Flagged(p, s.cleanup, Seen(d), fuel);
    Boundary(b + 1 + Len(s.cleanup), stacker, InFinally, fuel, d, o, l, Steps(p, Code(p), d, l));
    After(p, b + 1 + Len(s.cleanup), stacker, fuel, c, j, o, l);
    k := ContinueUnwinding(p, stacker, c, fuel, o, a + Len(s), j + l);
  }

  /** The last instruction of a finally block. */
  lemma ContinueUnwinding<S>(p: Program<S>, stacker: seq<StackerEntry>, c: Config<S>, fuel: nat,
      o: Outcome<World<S>>, fin: nat, l: nat) returns (k: nat)
    requires Acyclic(p.parent) && fin >= 1 && Agrees(fin - 1, stacker, fuel, c, o, l, Steps(p, Code(p), c, l))
    requires fin - 1 < |Code(p)| && Code(p)[fin - 1] == ContinueIfUnwinding
    ensures Agrees(fin, stacker, fuel, c, Resume(o), k, Steps(p, Code(p), c, k))
  {
    hide Code, Steps;
    k := l;
    if o.Normal? {
      StepsThen(p, Code(p), c, l, 0);
      k := l + 1;
    }
  }
}
