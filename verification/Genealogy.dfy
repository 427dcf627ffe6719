/** The genealogy pass of lang/genist.c: every class is given what its mixins and its ancestors have. */
module Genealogy {
  import opened Options

  datatype Result<+T> = Ok(value: T) | Err(error: Error)

  /** The pass stops the compiler with one of these. */
  datatype Error =
    | UnknownClass | Cycle
    | MixinNotVirtual | ParentIsCData | CDataOfNonVirtual
    | DuplicateProperty | DuplicateMethod | InheritedAccessor

  /** Names are only ever compared; a function stands for itself. */
  type Name = nat

  type FuncInfo = nat

  datatype Kind = Virtual | CData | Field

  datatype Marker = Unvisited | Visiting | Visited

  /** A class as lang/stran.c collects it. `parent` is the empty string, None, for no parent; `accessors` are the names of the virtual get and
      set methods, which are among the methods too. */
  datatype ClassInfo = ClassInfo(
    kind: Kind, parent: Option<Name>, mixins: seq<Name>, methods: map<Name, FuncInfo>, accessors: set<Name>,
    props: set<Name>, marker: Marker)

  type Classes = map<Name, ClassInfo>

  // ----- one step: add_parent -----

  function InheritedKind(child: Kind, parent: Kind): Kind {
    if child.Virtual? && parent.Field? then Field else child
  }

  /** May the child inherit from the parent at all? */
  function Allowed(child: Kind, parent: Kind, isMixin: bool): Option<Error> {
    if isMixin && !parent.Virtual? then Some(MixinNotVirtual)
    else if parent.CData? then Some(ParentIsCData)
    else if child.CData? && !parent.Virtual? then Some(CDataOfNonVirtual)
    else None
  }

  /** The child with what the parent has, or the error when both have a property or a method of one name. */
  function Inherit(ci: ClassInfo, p: ClassInfo, isMixin: bool): Result<ClassInfo> {
    var no := Allowed(ci.kind, p.kind, isMixin);
    if no.Some? then Err(no.value)
    else if p.kind.Field? && p.props * ci.props != {} then Err(DuplicateProperty)
    else if p.methods.Keys * ci.methods.Keys != {} then Err(DuplicateMethod)
    else if p.accessors != {} then Err(InheritedAccessor)
    else Ok(ci.(
      kind := InheritedKind(ci.kind, p.kind),
      props := if p.kind.Field? then ci.props + p.props else ci.props,
      methods := ci.methods + p.methods))
  }

  // ----- what the pass should give each class, one class at a time -----

  /** The class with the mixins, in order. */
  function MixIn(classes: Classes, ci: ClassInfo, mixins: seq<Name>): Result<ClassInfo>
    decreases mixins
  {
    if mixins == [] then Ok(ci)
    else if mixins[0] !in classes then Err(UnknownClass)
    else
      match Inherit(ci, classes[mixins[0]], true)
      case Err(e) => Err(e)
      case Ok(next) => MixIn(classes, next, mixins[1..])
  }

  /** The class completed on its own: its mixins, then its parent, itself completed. `below` are the classes this
      is wanted for, none of which can be an ancestor. */
  function Complete(classes: Classes, name: Name, below: set<Name>): Result<ClassInfo>
    decreases |classes.Keys - below|
  {
    if name !in classes then Err(UnknownClass)
    else if name in below then Err(Cycle)
    else
      Shrinks(classes, name, below);
      match MixIn(classes, classes[name], classes[name].mixins)
      case Err(e) => Err(e)
      case Ok(mixed) =>
        if classes[name].parent == None then Ok(mixed)
        else
          match Complete(classes, classes[name].parent.value, below + {name})
          case Err(e) => Err(e)
          case Ok(parent) => Inherit(mixed, parent, false)
  }

  lemma Shrinks(classes: Classes, name: Name, below: set<Name>)
    requires name in classes && name !in below
    ensures |classes.Keys - (below + {name})| < |classes.Keys - below|
  {
    assert classes.Keys - below == (classes.Keys - (below + {name})) + {name};
  }

  // ----- the line of ancestors -----

  /** The class and its ancestors, where it can be completed. */
  function Line(classes: Classes, name: Name, below: set<Name>): (line: set<Name>)
    requires Complete(classes, name, below).Ok?
    ensures name in line && line <= classes.Keys
    decreases |classes.Keys - below|
  {
    Shrinks(classes, name, below);
    if classes[name].parent == None then {name}
    else {name} + Line(classes, classes[name].parent.value, below + {name})
  }

  lemma {:induction false} LineAvoids(classes: Classes, name: Name, below: set<Name>)
    requires Complete(classes, name, below).Ok?
    ensures Line(classes, name, below) !! below
    decreases |classes.Keys - below|
  {
    Shrinks(classes, name, below);
    if classes[name].parent.Some? {
      LineAvoids(classes, classes[name].parent.value, below + {name});
    }
  }

  /** Completion does not depend on what it is wanted for, as long as that stays off the line of ancestors. */
  lemma {:induction false} BelowIsIrrelevant(classes: Classes, name: Name, below: set<Name>, other: set<Name>)
    requires Complete(classes, name, below).Ok? && Line(classes, name, below) !! other
    ensures Complete(classes, name, other) == Complete(classes, name, below)
    ensures Line(classes, name, other) == Line(classes, name, below)
    decreases |classes.Keys - below|
  {
    Shrinks(classes, name, below);
    if classes[name].parent.Some? {
      LineAvoids(classes, classes[name].parent.value, below + {name});
      BelowIsIrrelevant(classes, classes[name].parent.value, below + {name}, other + {name});
    }
  }

  // ----- the pass itself -----

  /** A class that is mixed in anywhere has no parent and no mixins of its own. */
  predicate PlainMixins(classes: Classes) {
    forall n :: n in classes ==>
      forall i :: 0 <= i < |classes[n].mixins| && classes[n].mixins[i] in classes ==> Plain(classes[classes[n].mixins[i]])
  }

  predicate Plain(ci: ClassInfo) {
    ci.parent == None && ci.mixins == []
  }

  /** As lang/stran.c leaves the classes. */
  predicate Fresh(classes: Classes) {
    forall n :: n in classes ==> classes[n].marker.Unvisited?
  }

  class Genist {
    ghost const first: Classes
    var classes: Classes

    constructor (classes: Classes)
      requires Fresh(classes) && PlainMixins(classes)
      ensures this.classes == first == classes
    {
      this.first := classes;
      this.classes := classes;
    }

    /** add_parent: false ways out leave the tables half done, as the compiler stops. */
    method AddParent(child: Name, parent: Name, isMixin: bool) returns (e: Option<Error>)
      requires child in classes && child != parent
      modifies this
      ensures if parent !in old(classes) then e == Some(UnknownClass)
        else
          var r := Inherit(old(classes)[child], old(classes)[parent], isMixin);
          if r.Ok? then e == None && classes == old(classes)[child := r.value] else e == Some(r.error)
    {
      if parent !in classes {
        return Some(UnknownClass);
      }
      var ci, p := classes[child], classes[parent];
      e := Allowed(ci.kind, p.kind, isMixin);
      if e.Some? {
        return;
      }
      // If the child is virtual and the parent has fields, the child has fields too.
      if ci.kind.Virtual? && p.kind.Field? {
        ci := ci.(kind := Field);
      }
      // Copy properties.
      if p.kind.Field? {
        var ok, props := AddAll(ci.props, p.props);
        if !ok {
          return Some(DuplicateProperty);
        }
        ci := ci.(props := props);
      }
      // Copy methods.
      var ok, methods := AddMethods(ci.methods, p.methods);
      if !ok {
        return Some(DuplicateMethod);
      }
      ci := ci.(methods := methods);
      if p.accessors != {} {
        return Some(InheritedAccessor);
      }
      classes := classes[child := ci];
    }

    ghost predicate Valid(visiting: set<Name>)
      reads this
    {
      Inv(first, classes, visiting)
    }

    /** Adds one mixin to a class that is being completed. */
    method AddMixin(name: Name, mixin: Name, ghost cur: ClassInfo) returns (e: Option<Error>)
      requires mixin != name && name in classes && classes[name] == cur.(marker := Visiting)
      requires mixin in classes <==> mixin in first
      requires mixin in first ==> classes[mixin] == first[mixin].(marker := classes[mixin].marker)
      modifies this
      ensures mixin !in first ==> e == Some(UnknownClass)
      ensures mixin in first ==>
        var r := Inherit(cur, first[mixin], true);
        && (r.Err? ==> e == Some(r.error))
        && (r.Ok? ==> e == None && classes == old(classes)[name := r.value.(marker := Visiting)])
    {
      hide Inherit;
      if mixin in classes {
        MarkersDoNotMatter(cur, first[mixin], true, Visiting, classes[mixin].marker);
      }
      e := AddParent(name, mixin, true);
    }

    /** The loop over the mixins. */
    method MixAll(name: Name, ghost visiting: set<Name>) returns (e: Option<Error>)
      requires Valid(visiting) && name in visiting && Waiting(first, visiting - {name})
      requires classes[name] == first[name].(marker := Visiting)
      modifies this
      ensures var mixed := MixIn(first, first[name], first[name].mixins);
        && (mixed.Err? ==> e == Some(mixed.error))
        && (mixed.Ok? ==> e == None && classes == old(classes)[name := mixed.value.(marker := Visiting)])
    {
      var mixins := classes[name].mixins;
      ghost var cur, todo := first[name], mixins;
      ghost var goal := MixIn(first, cur, todo);
      hide MixIn, Inherit, Inv, Waiting;
      for i := 0 to |mixins|
        invariant todo == mixins[i..]
        invariant classes == old(classes)[name := cur.(marker := Visiting)]
        invariant goal == MixIn(first, cur, todo)
      {
        var mixin := mixins[i];
        assert todo[0] == mixin;
        MixInStep(first, cur, todo);
        Known(first, old(classes), mixin, visiting);
        MixinAsFirst(first, old(classes), visiting, name, i);
        e := AddMixin(name, mixin, cur);
        if e.Some? {
          return;
        }
        cur, todo := Inherit(cur, first[mixin], true).value, todo[1..];
      }
      MixInEnd(first, cur);
      e := None;
    }

    /** genist_run_r: completes the class and its ancestors, or says why it cannot. */
    method RunR(name: Name, ghost visiting: set<Name>) returns (e: Option<Error>)
      requires Valid(visiting) && Waiting(first, visiting)
      modifies this
      ensures Complete(first, name, visiting).Err? ==> e == Some(Complete(first, name, visiting).error)
      ensures Complete(first, name, visiting).Ok? ==>
        && e == None && Valid(visiting) && Done(classes, name)
        && (forall n :: n in visiting && n in old(classes) ==> n in classes && classes[n] == old(classes)[n])
        && (forall n :: Done(old(classes), n) ==> Done(classes, n))
      decreases |first.Keys - visiting|
    {
      hide Complete, MixIn, Inherit, Inv;
      Known(first, classes, name, visiting);
      Unfold(first, name, visiting);
      if name !in classes {
        return Some(UnknownClass);
      }
      if classes[name].marker.Visiting? {
        return Some(Cycle);
      }
      if classes[name].marker.Visited? {
        DoneStays(first, classes, name, visiting);
        return None;
      }
      Shrinks(first, name, visiting);
      Entered(first, classes, name, visiting);
      classes := classes[name := classes[name].(marker := Visiting)];
      ghost var was := classes;
      e := MixAll(name, visiting + {name});
      if e.Some? {
        return;
      }
      MixInKeeps(first, first[name], first[name].mixins);
      MixedIn(first, was, name, classes[name], visiting + {name});
      e := FromParent(name, visiting);
    }

    /** The second half: the parent is completed and added. */
    method FromParent(name: Name, ghost visiting: set<Name>) returns (e: Option<Error>)
      requires name in first && name !in visiting && Waiting(first, visiting)
      requires MixIn(first, first[name], first[name].mixins).Ok?
      requires name in classes && classes[name] == MixIn(first, first[name], first[name].mixins).value.(marker := Visiting)
      requires Valid(visiting + {name}) && classes[name].parent == first[name].parent
      modifies this
      ensures Complete(first, name, visiting).Err? ==> e == Some(Complete(first, name, visiting).error)
      ensures Complete(first, name, visiting).Ok? ==>
        && e == None && Valid(visiting) && Done(classes, name)
        && (forall n :: n in visiting && n in old(classes) ==> n in classes && classes[n] == old(classes)[n])
        && (forall n :: Done(old(classes), n) ==> Done(classes, n))
      decreases |first.Keys - visiting|, 0
    {
      hide Complete, MixIn, Inherit, Inv;
      Unfold(first, name, visiting);
      Shrinks(first, name, visiting);
      ghost var mixed := MixIn(first, first[name], first[name].mixins).value;
      var parent := classes[name].parent;
      ghost var was := classes;
      if parent.Some? {
        e := RunR(parent.value, visiting + {name});
        if e.Some? {
          return;
        }
        was := classes;
        DoneStays(first, classes, parent.value, visiting + {name});
        MarkersDoNotMatter(mixed, Complete(first, parent.value, visiting + {name}).value, false, Visiting, Visited);
        e := AddParent(name, parent.value, false);
        if e.Some? {
          return;
        }
      }
      Left(first, was, name, Complete(first, name, visiting).value, visiting);
      classes := classes[name := classes[name].(marker := Visited)];
      assert classes == was[name := classes[name]];
      e := None;
    }

    /** genist_run: completes every class, whatever order the dictionary goes through them in; or stops with the error
        of a class that cannot be completed. */
    method Run(order: seq<Name>) returns (e: Option<Error>)
      requires classes == first && Fresh(first) && PlainMixins(first) && Iterates(order, first)
      modifies this
      ensures e.None? ==> Completed(first, classes)
      ensures e.Some? ==> exists n :: n in first && Complete(first, n, {}) == Err(e.value)
    {
      Untouched(first);
      Iterated(order, first);
      hide *;
      e := None;
      for i := 0 to |order|
        invariant e == None && Valid({})
        invariant AllDone(classes, order[..i])
      {
        ghost var was := classes;
        NoneWaits(first);
        e := RunR(order[i], {});
        if e.Some? {
          return;
        }
        OneMoreDone(was, classes, order, i);
      }
      AllFinished(first, classes, order);
    }
  }

  // ----- what holds between calls -----

  ghost predicate Done(classes: Classes, n: Name) {
    n in classes && classes[n].marker.Visited?
  }

  /** Untouched classes are as they were, finished ones are complete, and so are their ancestors. */
  ghost predicate Inv(first: Classes, classes: Classes, visiting: set<Name>) {
    && classes.Keys == first.Keys && Fresh(first) && PlainMixins(first) && visiting <= first.Keys
    && (forall n :: n in first ==> (classes[n].marker.Visiting? <==> n in visiting))
    && (forall n :: n in first && classes[n].marker.Unvisited? ==> classes[n] == first[n])
    && (forall n :: n in first && Done(classes, n) ==> Finished(first, classes, n))
  }

  ghost predicate AllDone(classes: Classes, names: seq<Name>) {
    forall j :: 0 <= j < |names| ==> Done(classes, names[j])
  }

  lemma OneMoreDone(was: Classes, classes: Classes, order: seq<Name>, i: nat)
    requires i < |order| && AllDone(was, order[..i]) && Done(classes, order[i])
    requires forall n :: Done(was, n) ==> Done(classes, n)
    ensures AllDone(classes, order[..i + 1])
  {
  }

  lemma NoneWaits(first: Classes)
    ensures Waiting(first, {})
  {
  }

  /** Every class has its own definition, its mixins' and its ancestors'. */
  ghost predicate Completed(first: Classes, classes: Classes) {
    && classes.Keys == first.Keys
    && forall n :: n in first ==>
      Complete(first, n, {}).Ok? && classes[n] == Complete(first, n, {}).value.(marker := Visited)
  }

  lemma AllFinished(first: Classes, classes: Classes, order: seq<Name>)
    requires Inv(first, classes, {}) && Iterates(order, first) && AllDone(classes, order[..|order|])
    ensures Completed(first, classes)
  {
    hide Complete, Line;
    forall n | n in first
      ensures Finished(first, classes, n)
    {
      assert n in order;
    }
  }

  /** A dictionary iteration goes through all classes. */
  ghost predicate Iterates(order: seq<Name>, classes: Classes) {
    && (forall j :: 0 <= j < |order| ==> order[j] in classes)
    && forall n :: n in classes ==> n in order
  }

  lemma Iterated(order: seq<Name>, classes: Classes)
    requires Iterates(order, classes)
    ensures forall j :: 0 <= j < |order| ==> order[j] in classes
    ensures AllDone(classes, order[..0])
  {
  }

  lemma Untouched(first: Classes)
    requires Fresh(first) && PlainMixins(first)
    ensures Inv(first, first, {})
  {
  }

  ghost predicate Finished(first: Classes, classes: Classes, n: Name) {
    && n in classes && Complete(first, n, {}).Ok? && classes[n] == Complete(first, n, {}).value.(marker := Visited)
    && forall a :: a in Line(first, n, {}) ==> Done(classes, a)
  }

  /** A class waits for its parent only if it has one. */
  ghost predicate Waiting(first: Classes, visiting: set<Name>) {
    forall n :: n in visiting ==> n in first && first[n].parent.Some?
  }

  lemma Known(first: Classes, classes: Classes, name: Name, visiting: set<Name>)
    requires Inv(first, classes, visiting)
    ensures name in classes <==> name in first
    ensures name in classes ==> (classes[name].marker.Visiting? <==> name in visiting)
    ensures name in classes && classes[name].marker.Unvisited? ==> classes[name] == first[name]
  {
  }

  lemma DoneStays(first: Classes, classes: Classes, name: Name, visiting: set<Name>)
    requires Inv(first, classes, visiting) && Done(classes, name)
    ensures Complete(first, name, visiting) == Complete(first, name, {})
    ensures Complete(first, name, {}).Ok? && classes[name] == Complete(first, name, {}).value.(marker := Visited)
  {
    assert Finished(first, classes, name);
    hide Complete, Line;
    BelowIsIrrelevant(first, name, {}, visiting);
  }

  /** A class that is mixed in is as it was, whether visited or not. */
  lemma MixinAsFirst(first: Classes, classes: Classes, visiting: set<Name>, name: Name, i: nat)
    requires Inv(first, classes, visiting) && name in visiting && Waiting(first, visiting - {name})
    requires i < |first[name].mixins|
    ensures var mixin := first[name].mixins[i]; mixin in first ==>
      mixin != name && mixin in classes && classes[mixin] == first[mixin].(marker := classes[mixin].marker)
  {
    var mixin := first[name].mixins[i];
    if mixin in first {
      assert Plain(first[mixin]);
      assert mixin !in visiting;
      if Done(classes, mixin) {
        assert Finished(first, classes, mixin);
      }
    }
  }

  lemma FinishedStays(first: Classes, classes: Classes, after: Classes, n: Name)
    requires Finished(first, classes, n) && n in after && after[n] == classes[n]
    requires forall a :: Done(classes, a) ==> Done(after, a)
    ensures Finished(first, after, n)
  {
  }

  lemma Entered(first: Classes, classes: Classes, name: Name, visiting: set<Name>)
    requires Inv(first, classes, visiting) && name in classes && classes[name].marker.Unvisited?
    ensures Inv(first, classes[name := classes[name].(marker := Visiting)], visiting + {name})
    ensures forall n :: Done(classes, n) ==> Done(classes[name := classes[name].(marker := Visiting)], n)
  {
    var after := classes[name := classes[name].(marker := Visiting)];
    hide Finished;
    forall n | n in first && Done(after, n)
      ensures Finished(first, after, n)
    {
      FinishedStays(first, classes, after, n);
    }
  }

  /** While a class is being completed, its own entry may change. */
  lemma MixedIn(first: Classes, classes: Classes, name: Name, ci: ClassInfo, visiting: set<Name>)
    requires Inv(first, classes, visiting) && name in visiting && ci.marker.Visiting?
    ensures Inv(first, classes[name := ci], visiting)
  {
    var after := classes[name := ci];
    hide Finished;
    forall n | n in first && Done(after, n)
      ensures Finished(first, after, n)
    {
      FinishedStays(first, classes, after, n);
    }
  }

  /** The class is finished. */
  lemma Left(first: Classes, classes: Classes, name: Name, ci: ClassInfo, visiting: set<Name>)
    requires Inv(first, classes, visiting + {name}) && name !in visiting
    requires Complete(first, name, visiting) == Ok(ci)
    requires first[name].parent.Some? ==> Done(classes, first[name].parent.value)
    ensures Inv(first, classes[name := ci.(marker := Visited)], visiting)
  {
    var after := classes[name := ci.(marker := Visited)];
    LeftFinished(first, classes, name, ci, visiting);
    hide Complete, Line, Finished;
    forall n | n in first && Done(after, n)
      ensures Finished(first, after, n)
    {
      if n != name {
        FinishedStays(first, classes, after, n);
      }
    }
  }

  lemma LeftFinished(first: Classes, classes: Classes, name: Name, ci: ClassInfo, visiting: set<Name>)
    requires Inv(first, classes, visiting + {name})
    requires Complete(first, name, visiting) == Ok(ci)
    requires first[name].parent.Some? ==> Done(classes, first[name].parent.value)
    ensures Finished(first, classes[name := ci.(marker := Visited)], name)
  {
    FinishedLine(first, name, visiting);
    if first[name].parent.Some? {
      assert first[name].parent.value in first;
      assert Finished(first, classes, first[name].parent.value);
    }
    hide Complete, Line;
  }

  // ----- Complete and MixIn, one step at a time -----

  lemma Unfold(classes: Classes, name: Name, below: set<Name>)
    ensures name !in classes ==> Complete(classes, name, below) == Err(UnknownClass)
    ensures name in classes && name in below ==> Complete(classes, name, below) == Err(Cycle)
    ensures name in classes && name !in below ==>
      var mixed := MixIn(classes, classes[name], classes[name].mixins);
      Complete(classes, name, below) ==
        if mixed.Err? || classes[name].parent.None? then mixed
        else
          var parent := Complete(classes, classes[name].parent.value, below + {name});
          if parent.Err? then parent else Inherit(mixed.value, parent.value, false)
  {
  }

  lemma MixInStep(classes: Classes, ci: ClassInfo, mixins: seq<Name>)
    requires mixins != []
    ensures mixins[0] !in classes ==> MixIn(classes, ci, mixins) == Err(UnknownClass)
    ensures mixins[0] in classes ==>
      var r := Inherit(ci, classes[mixins[0]], true);
      MixIn(classes, ci, mixins) == if r.Err? then r else MixIn(classes, r.value, mixins[1..])
  {
  }

  lemma MixInEnd(classes: Classes, ci: ClassInfo)
    ensures MixIn(classes, ci, []) == Ok(ci)
  {
  }

  lemma {:induction false} MixInKeeps(classes: Classes, ci: ClassInfo, mixins: seq<Name>)
    ensures var r := MixIn(classes, ci, mixins);
      r.Ok? ==> r.value.parent == ci.parent && r.value.marker == ci.marker && r.value.mixins == ci.mixins
    decreases mixins
  {
    if mixins != [] && mixins[0] in classes {
      var r := Inherit(ci, classes[mixins[0]], true);
      if r.Ok? {
        MixInKeeps(classes, r.value, mixins[1..]);
      }
    }
  }

  /** The line of a completed class, seen from anywhere. */
  lemma FinishedLine(classes: Classes, name: Name, below: set<Name>)
    requires Complete(classes, name, below).Ok?
    ensures Complete(classes, name, {}) == Complete(classes, name, below)
    ensures var parent := classes[name].parent;
      if parent.None? then Line(classes, name, {}) == {name}
      else Complete(classes, parent.value, {}).Ok? && Line(classes, name, {}) == {name} + Line(classes, parent.value, {})
  {
    BelowIsIrrelevant(classes, name, below, {});
    var parent := classes[name].parent;
    if parent.Some? {
      assert {} + {name} == {name};
      BelowIsIrrelevant(classes, parent.value, {name}, {});
    }
  }

  lemma MarkersDoNotMatter(ci: ClassInfo, p: ClassInfo, isMixin: bool, a: Marker, b: Marker)
    ensures Inherit(ci.(marker := a), p.(marker := b), isMixin) ==
      var r := Inherit(ci, p, isMixin); if r.Ok? then Ok(r.value.(marker := a)) else r
  {
  }

  /** Adds the names one by one, in no particular order; stops at the first that is there already. */
  method AddAll(props: set<Name>, more: set<Name>) returns (ok: bool, r: set<Name>)
    ensures ok <==> more * props == {}
    ensures ok ==> r == props + more
  {
    r := props;
    var todo := more;
    while todo != {}
      invariant todo <= more && r == props + (more - todo)
      invariant (more - todo) * props == {}
      decreases todo
    {
      var name :| name in todo;
      if name in r {
        return false, r;
      }
      r := r + {name};
      todo := todo - {name};
    }
    ok := true;
  }

  method AddMethods(methods: map<Name, FuncInfo>, more: map<Name, FuncInfo>) returns (ok: bool, r: map<Name, FuncInfo>)
    ensures ok <==> more.Keys * methods.Keys == {}
    ensures ok ==> r == methods + more
  {
    r := methods;
    var todo := more.Keys;
    while todo != {}
      invariant todo <= more.Keys && r.Keys == methods.Keys + (more.Keys - todo)
      invariant (more.Keys - todo) * methods.Keys == {}
      invariant forall n :: n in methods ==> r[n] == methods[n]
      invariant forall n :: n in more.Keys - todo ==> r[n] == more[n]
      decreases todo
    {
      var name :| name in todo;
      if name in r {
        assert name in more.Keys * methods.Keys;
        return false, r;
      }
      r := r[name := more[name]];
      todo := todo - {name};
    }
    ok := true;
    assert r == methods + more;
  }
}
