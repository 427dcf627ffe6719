/** When the genealogy pass can complete a class, and which error comes otherwise, told from the class table alone. */
module Completion {
  import opened Options
  import opened Genealogy
  import opened GenealogyTheorems

  // ----- the chain of parents -----

  /** The class and its ancestors in order, up to the first that is unknown or comes again. */
  function Path(classes: Classes, name: Name, below: set<Name>): (path: seq<Name>)
    ensures AllKnown(classes, path)
    decreases |classes.Keys - below|
  {
    if name !in classes || name in below then []
    else
      Shrinks(classes, name, below);
      [name] + if classes[name].parent.None? then [] else Path(classes, classes[name].parent.value, below + {name})
  }

  predicate AllKnown(classes: Classes, path: seq<Name>) {
    forall i :: 0 <= i < |path| ==> path[i] in classes
  }

  /** How the chain ends: None at a class without a parent. */
  function Stop(classes: Classes, name: Name, below: set<Name>): Option<Error>
    decreases |classes.Keys - below|
  {
    if name !in classes then Some(UnknownClass)
    else if name in below then Some(Cycle)
    else
      Shrinks(classes, name, below);
      if classes[name].parent.None? then None else Stop(classes, classes[name].parent.value, below + {name})
  }

  /** The path is the class's ancestors, step by step. */
  lemma {:induction false} PathIsAncestors(classes: Classes, name: Name, below: set<Name>, k: nat)
    ensures var path := Path(classes, name, below); k < |path| ==> Ancestor(classes, name, k) == Some(path[k])
    decreases |classes.Keys - below|
  {
    if name in classes && name !in below {
      Shrinks(classes, name, below);
      if k > 0 && classes[name].parent.Some? {
        PathIsAncestors(classes, classes[name].parent.value, below + {name}, k - 1);
      }
    }
  }

  predicate EndsAt(classes: Classes, name: Name, k: nat) {
    var a := Ancestor(classes, name, k);
    a.Some? && a.value in classes && classes[a.value].parent.None?
  }

  predicate LeadsOutAt(classes: Classes, name: Name, k: nat) {
    var a := Ancestor(classes, name, k);
    a.Some? && a.value in classes && classes[a.value].parent.Some? && classes[a.value].parent.value !in classes
  }

  /** The chain of parents leads out of the table. */
  ghost predicate LeadsOut(classes: Classes, name: Name) {
    name !in classes || exists k: nat :: LeadsOutAt(classes, name, k)
  }

  /** The chain of parents ends at a class of the table. */
  ghost predicate Ends(classes: Classes, name: Name) {
    exists k: nat :: EndsAt(classes, name, k)
  }

  // ----- mixins -----

  /** The methods of a class and of its first `n` mixins. */
  function Taken(classes: Classes, ci: ClassInfo, n: nat): set<Name>
    requires n <= |ci.mixins|
  {
    if n == 0 then ci.methods.Keys
    else Taken(classes, ci, n - 1) + if ci.mixins[n - 1] in classes then classes[ci.mixins[n - 1]].methods.Keys else {}
  }

  function MethodNames(classes: Classes, ci: ClassInfo): set<Name> {
    Taken(classes, ci, |ci.mixins|)
  }

  lemma {:induction false} TakenHas(classes: Classes, ci: ClassInfo, n: nat, m: Name)
    requires n <= |ci.mixins|
    ensures m in Taken(classes, ci, n)
      <==> m in ci.methods || exists k :: 0 <= k < n && ci.mixins[k] in classes && m in classes[ci.mixins[k]].methods
  {
    if n > 0 {
      TakenHas(classes, ci, n - 1, m);
    }
  }

  /** What is wrong with a class's mixin number `i`, where those before it are in order. */
  function MixinProblem(classes: Classes, ci: ClassInfo, i: nat): Option<Error>
    requires i < |ci.mixins|
  {
    var mixin := ci.mixins[i];
    if mixin !in classes then Some(UnknownClass)
    else if !classes[mixin].kind.Virtual? then Some(MixinNotVirtual)
    else if classes[mixin].methods.Keys * Taken(classes, ci, i) != {} then Some(DuplicateMethod)
    else if classes[mixin].accessors != {} then Some(InheritedAccessor)
    else None
  }

  /** The first problem from mixin `i` on. */
  function MixinsProblem(classes: Classes, ci: ClassInfo, i: nat): Option<Error>
    requires i <= |ci.mixins|
    decreases |ci.mixins| - i
  {
    if i == |ci.mixins| then None
    else if MixinProblem(classes, ci, i).Some? then MixinProblem(classes, ci, i)
    else MixinsProblem(classes, ci, i + 1)
  }

  /** From mixin `i` on, with `cur` what has come of the class so far. */
  lemma {:induction false} MixInIs(classes: Classes, ci: ClassInfo, cur: ClassInfo, i: nat)
    requires i <= |ci.mixins| && cur.methods.Keys == Taken(classes, ci, i)
    ensures var r, problem := MixIn(classes, cur, ci.mixins[i..]), MixinsProblem(classes, ci, i);
      && (problem.Some? ==> r == Err(problem.value))
      && (problem.None? ==>
            && r.Ok? && r.value.methods.Keys == MethodNames(classes, ci)
            && r.value.kind == cur.kind && r.value.props == cur.props && r.value.accessors == cur.accessors)
    decreases |ci.mixins| - i
  {
    var rest := ci.mixins[i..];
    if i < |ci.mixins| {
      assert rest[0] == ci.mixins[i] && rest[1..] == ci.mixins[i + 1..];
      MixInStep(classes, cur, rest);
      if MixinProblem(classes, ci, i).None? {
        var next := Inherit(cur, classes[ci.mixins[i]], true);
        assert next.Ok? && next.value.methods.Keys == Taken(classes, ci, i + 1);
        MixInIs(classes, ci, next.value, i + 1);
      }
    }
  }

  // ----- the line of ancestors -----

  /** The class, or one above it on the path, has fields. */
  predicate HasFields(classes: Classes, path: seq<Name>)
    requires AllKnown(classes, path)
  {
    path != [] && (classes[path[0]].kind.Field? || HasFields(classes, path[1..]))
  }

  function AllMethods(classes: Classes, path: seq<Name>): set<Name>
    requires AllKnown(classes, path)
  {
    if path == [] then {} else MethodNames(classes, classes[path[0]]) + AllMethods(classes, path[1..])
  }

  /** The properties the class ends up with: those of classes above only come with fields. */
  function AllProps(classes: Classes, path: seq<Name>): set<Name>
    requires AllKnown(classes, path)
  {
    if path == [] then {}
    else classes[path[0]].props + if HasFields(classes, path[1..]) then AllProps(classes, path[1..]) else {}
  }

  /** What is wrong between the first class of the path and those above it, where those are in order. */
  function ParentProblem(classes: Classes, path: seq<Name>): Option<Error>
    requires AllKnown(classes, path) && |path| >= 2
  {
    var ci, parent, above := classes[path[0]], classes[path[1]], path[1..];
    if parent.kind.CData? then Some(ParentIsCData)
    else if ci.kind.CData? && HasFields(classes, above) then Some(CDataOfNonVirtual)
    else if HasFields(classes, above) && AllProps(classes, above) * ci.props != {} then Some(DuplicateProperty)
    else if AllMethods(classes, above) * MethodNames(classes, ci) != {} then Some(DuplicateMethod)
    else if parent.accessors != {} then Some(InheritedAccessor)
    else None
  }

  /** The first class of the path, from below, whose mixins are not in order. */
  function FromBelow(classes: Classes, path: seq<Name>): Option<Error>
    requires AllKnown(classes, path)
  {
    if path == [] then None
    else
      var problem := MixinsProblem(classes, classes[path[0]], 0);
      if problem.Some? then problem else FromBelow(classes, path[1..])
  }

  /** The first class of the path, from above, that cannot have the parent it has. */
  function FromAbove(classes: Classes, path: seq<Name>): Option<Error>
    requires AllKnown(classes, path)
  {
    if |path| <= 1 then None
    else
      var above := FromAbove(classes, path[1..]);
      if above.Some? then above else ParentProblem(classes, path)
  }

  /** Mixins are looked at on the way up, the end of the chain at the top, and parents on the way down. */
  function Verdict(classes: Classes, name: Name, below: set<Name>): Option<Error> {
    var path, stop := Path(classes, name, below), Stop(classes, name, below);
    if FromBelow(classes, path).Some? then FromBelow(classes, path)
    else if stop.Some? then stop
    else FromAbove(classes, path)
  }

  lemma UnfoldPath(classes: Classes, name: Name, below: set<Name>)
    requires name in classes && name !in below
    ensures classes[name].parent.None? ==> Path(classes, name, below) == [name] && Stop(classes, name, below) == None
    ensures classes[name].parent.Some? ==>
      var parent := classes[name].parent.value;
      Path(classes, name, below) == [name] + Path(classes, parent, below + {name})
        && Stop(classes, name, below) == Stop(classes, parent, below + {name})
        && (Stop(classes, name, below).None? ==>
              Path(classes, parent, below + {name}) != [] && Path(classes, parent, below + {name})[0] == parent)
  {
    Shrinks(classes, name, below);
  }

  lemma UnfoldVerdict(classes: Classes, name: Name, below: set<Name>)
    requires name in classes && name !in below
    ensures var path, parent := Path(classes, name, below), classes[name].parent;
      var own := MixinsProblem(classes, classes[name], 0);
      Verdict(classes, name, below) ==
        if own.Some? then own
        else if parent.None? then None
        else
          var above := Verdict(classes, parent.value, below + {name});
          if above.Some? then above else if |path| >= 2 then ParentProblem(classes, path) else None
    ensures classes[name].parent.Some? && Verdict(classes, classes[name].parent.value, below + {name}).None? ==>
      |Path(classes, name, below)| >= 2
  {
    UnfoldPath(classes, name, below);
    hide Path, Stop, MixinsProblem, ParentProblem;
    var path := Path(classes, name, below);
    assert path[0] == name;
    if classes[name].parent.Some? {
      assert path[1..] == Path(classes, classes[name].parent.value, below + {name});
    } else {
      assert path == [name] && path[1..] == [] && FromBelow(classes, path[1..]) == None;
      assert FromBelow(classes, path) == MixinsProblem(classes, classes[name], 0);
    }
  }

  /** What the class on the path is to be like. */
  ghost predicate IsCompleted(classes: Classes, path: seq<Name>, ci: ClassInfo)
    requires AllKnown(classes, path) && path != []
  {
    && (ci.kind.Field? <==> HasFields(classes, path)) && (ci.kind.CData? <==> classes[path[0]].kind.CData?)
    && ci.methods.Keys == AllMethods(classes, path) && ci.props == AllProps(classes, path)
    && ci.accessors == classes[path[0]].accessors
  }

  /** One inheritance, of a class with its mixins from its completed parent. */
  lemma InheritIs(classes: Classes, path: seq<Name>, mixed: ClassInfo, parent: ClassInfo)
    requires AllKnown(classes, path) && |path| >= 2 && IsCompleted(classes, path[1..], parent)
    requires var ci := classes[path[0]];
      && mixed.kind == ci.kind && mixed.props == ci.props && mixed.accessors == ci.accessors
      && mixed.methods.Keys == MethodNames(classes, ci)
    ensures var r, problem := Inherit(mixed, parent, false), ParentProblem(classes, path);
      && (problem.Some? ==> r == Err(problem.value))
      && (problem.None? ==> r.Ok? && IsCompleted(classes, path, r.value))
  {
    hide Taken;
    assert path[1..][0] == path[1];
  }

  /** The pass completes a class, or gives just the error that the table calls for. */
  lemma {:induction false} VerdictIs(classes: Classes, name: Name, below: set<Name>)
    ensures var r, v := Complete(classes, name, below), Verdict(classes, name, below);
      && (v.Some? ==> r == Err(v.value))
      && (v.None? ==> r.Ok? && Path(classes, name, below) != [] && IsCompleted(classes, Path(classes, name, below), r.value))
    decreases |classes.Keys - below|
  {
    hide MixIn, Inherit, MixinsProblem, MethodNames, ParentProblem, Path, Stop, AllProps, AllMethods, HasFields;
    Unfold(classes, name, below);
    if name in classes && name !in below {
      hide Complete;
      UnfoldPath(classes, name, below);
      UnfoldVerdict(classes, name, below);
      Shrinks(classes, name, below);
      var ci, path := classes[name], Path(classes, name, below);
      assert ci.mixins[0..] == ci.mixins;
      MixInIs(classes, ci, ci, 0);
      hide Verdict;
      if ci.parent.None? {
        OnlyClass(classes, name);
      } else {
        var parent := ci.parent.value;
        VerdictIs(classes, parent, below + {name});
        if MixinsProblem(classes, ci, 0).None? && Verdict(classes, parent, below + {name}).None? {
          assert path[0] == name && path[1..] == Path(classes, parent, below + {name});
          InheritIs(classes, path, MixIn(classes, ci, ci.mixins).value, Complete(classes, parent, below + {name}).value);
        }
      }
    } else {
      NoPath(classes, name, below);
    }
  }

  lemma NoPath(classes: Classes, name: Name, below: set<Name>)
    requires name !in classes || name in below
    ensures Verdict(classes, name, below) == Some(if name !in classes then UnknownClass else Cycle)
  {
  }

  lemma OnlyClass(classes: Classes, name: Name)
    requires name in classes
    ensures HasFields(classes, [name]) <==> classes[name].kind.Field?
    ensures AllMethods(classes, [name]) == MethodNames(classes, classes[name])
    ensures AllProps(classes, [name]) == classes[name].props
  {
    assert [name][1..] == [];
  }

  // ----- how the chain ends, by ancestors -----

  lemma {:induction false} StopIs(classes: Classes, name: Name, below: set<Name>) returns (j: nat, k: nat)
    ensures var stop := Stop(classes, name, below);
      && (stop.None? ==> EndsAt(classes, name, k))
      && (stop.Some? ==> stop.value == UnknownClass || stop.value == Cycle)
      && (stop == Some(UnknownClass) ==> name !in classes || LeadsOutAt(classes, name, k))
      && (stop == Some(Cycle) ==>
            && Ancestor(classes, name, k).Some?
            && ((j < k && Ancestor(classes, name, j) == Ancestor(classes, name, k))
                || Ancestor(classes, name, k).value in below))
    decreases |classes.Keys - below|
  {
    j, k := 0, 0;
    if name in classes && name !in below && classes[name].parent.Some? {
      Shrinks(classes, name, below);
      var parent := classes[name].parent.value;
      var stop := Stop(classes, name, below);
      j, k := StopIs(classes, parent, below + {name});
      if stop == Some(UnknownClass) && parent !in classes {
        k := 0;
      } else if stop == Some(Cycle) && !(j < k && Ancestor(classes, parent, j) == Ancestor(classes, parent, k)) {
        j, k := 0, k + 1;
      } else {
        j, k := j + 1, k + 1;
      }
    }
  }

  lemma {:induction false} NothingFurther(classes: Classes, name: Name, k: nat)
    requires EndsAt(classes, name, k) || LeadsOutAt(classes, name, k)
    ensures Ancestor(classes, name, k + 1).None?
    decreases k
  {
    if k > 0 {
      NothingFurther(classes, classes[name].parent.value, k - 1);
    }
  }

  /** The chain of parents ends in the table, leads out of it, or never ends; and how it is found to stop says which. */
  lemma StopExactly(classes: Classes, name: Name)
    ensures Stop(classes, name, {}) == None <==> Ends(classes, name)
    ensures Stop(classes, name, {}) == Some(UnknownClass) <==> LeadsOut(classes, name)
    ensures Stop(classes, name, {}) == Some(Cycle) <==> Cyclic(classes, name)
  {
    var stop := Stop(classes, name, {});
    var j, k := StopIs(classes, name, {});
    if stop == Some(Cycle) {
      forall n: nat
        ensures Ancestor(classes, name, n).Some?
      {
        ComesBackForever(classes, name, j, k, n);
      }
    }
    forall a: nat | EndsAt(classes, name, a) || LeadsOutAt(classes, name, a)
      ensures !Cyclic(classes, name)
      ensures (EndsAt(classes, name, k) || LeadsOutAt(classes, name, k)) ==> a == k
    {
      NothingFurther(classes, name, a);
      if EndsAt(classes, name, k) || LeadsOutAt(classes, name, k) {
        NothingFurther(classes, name, k);
        if a < k {
          SomeBefore(classes, name, a + 1, k);
        } else if k < a {
          SomeBefore(classes, name, k + 1, a);
        }
      }
    }
    if name !in classes {
      assert Ancestor(classes, name, 0).None?;
    }
  }

  // ----- the condition on the line of ancestors, class by class -----

  /** A class's mixins are known and virtual and have no accessors, and no method comes twice among them and the class. */
  ghost predicate MixinsInOrder(classes: Classes, ci: ClassInfo) {
    forall k :: 0 <= k < |ci.mixins| ==>
      && ci.mixins[k] in classes
      && classes[ci.mixins[k]].kind.Virtual? && classes[ci.mixins[k]].accessors == {}
      && classes[ci.mixins[k]].methods.Keys !! ci.methods.Keys
      && forall j :: 0 <= j < k && ci.mixins[j] in classes ==>
        classes[ci.mixins[k]].methods.Keys !! classes[ci.mixins[j]].methods.Keys
  }

  /** The class or one of its mixins has the method. */
  ghost predicate HasMethod(classes: Classes, ci: ClassInfo, m: Name) {
    m in ci.methods || exists k :: 0 <= k < |ci.mixins| && ci.mixins[k] in classes && m in classes[ci.mixins[k]].methods
  }

  ghost predicate AllMixinsInOrder(classes: Classes, path: seq<Name>)
    requires AllKnown(classes, path)
  {
    forall i :: 0 <= i < |path| ==> MixinsInOrder(classes, classes[path[i]])
  }

  /** Nothing above the class is c-data or has accessors. */
  ghost predicate Inheritable(classes: Classes, path: seq<Name>)
    requires AllKnown(classes, path)
  {
    forall i :: 1 <= i < |path| ==> !classes[path[i]].kind.CData? && classes[path[i]].accessors == {}
  }

  /** A c-data class has no ancestor with fields. */
  ghost predicate CDataStaysApart(classes: Classes, path: seq<Name>)
    requires AllKnown(classes, path)
  {
    path != [] && classes[path[0]].kind.CData? ==> forall i :: 1 <= i < |path| ==> !classes[path[i]].kind.Field?
  }

  /** No method comes twice on the line, mixins included. */
  ghost predicate MethodsOnce(classes: Classes, path: seq<Name>)
    requires AllKnown(classes, path)
  {
    forall i, j, m :: 0 <= i < j < |path| && HasMethod(classes, classes[path[i]], m) ==>
      !HasMethod(classes, classes[path[j]], m)
  }

  /** No property comes twice on the line, up to the highest class with fields. */
  ghost predicate PropsOnce(classes: Classes, path: seq<Name>)
    requires AllKnown(classes, path)
  {
    forall i, j, k :: 0 <= i < j <= k < |path| && classes[path[k]].kind.Field? ==>
      classes[path[i]].props !! classes[path[j]].props
  }

  /** What the classes of a line of ancestors must be like, the class itself first. */
  ghost predicate Fits(classes: Classes, path: seq<Name>)
    requires AllKnown(classes, path)
  {
    && AllMixinsInOrder(classes, path) && Inheritable(classes, path) && CDataStaysApart(classes, path)
    && MethodsOnce(classes, path) && PropsOnce(classes, path)
  }

  lemma {:induction false} MixinsExactly(classes: Classes, ci: ClassInfo, i: nat)
    requires i <= |ci.mixins|
    ensures MixinsProblem(classes, ci, i).None? <==> forall k :: i <= k < |ci.mixins| ==> MixinProblem(classes, ci, k).None?
    decreases |ci.mixins| - i
  {
    hide MixinProblem;
    if i < |ci.mixins| {
      MixinsExactly(classes, ci, i + 1);
    }
  }

  lemma MixinExactly(classes: Classes, ci: ClassInfo, k: nat)
    requires k < |ci.mixins| && forall j :: 0 <= j < k ==> ci.mixins[j] in classes
    ensures MixinProblem(classes, ci, k).None? <==>
      && ci.mixins[k] in classes
      && classes[ci.mixins[k]].kind.Virtual? && classes[ci.mixins[k]].accessors == {}
      && classes[ci.mixins[k]].methods.Keys !! ci.methods.Keys
      && forall j :: 0 <= j < k ==> classes[ci.mixins[k]].methods.Keys !! classes[ci.mixins[j]].methods.Keys
  {
    hide Taken;
    if ci.mixins[k] in classes {
      var own := classes[ci.mixins[k]].methods.Keys;
      forall m
        ensures m in Taken(classes, ci, k)
          <==> m in ci.methods || exists j :: 0 <= j < k && ci.mixins[j] in classes && m in classes[ci.mixins[j]].methods
      {
        TakenHas(classes, ci, k, m);
      }
      assert own * Taken(classes, ci, k) == {} ==> forall m :: m in own ==> m !in own * Taken(classes, ci, k);
      assert own !! Taken(classes, ci, k) ==> own * Taken(classes, ci, k) == {};
      if own !! Taken(classes, ci, k) {
        forall j | 0 <= j < k
          ensures own !! classes[ci.mixins[j]].methods.Keys
        {
          assert forall m :: m in classes[ci.mixins[j]].methods ==> m in Taken(classes, ci, k);
        }
      }
    }
  }

  lemma InOrderExactly(classes: Classes, ci: ClassInfo)
    ensures MixinsProblem(classes, ci, 0).None? <==> MixinsInOrder(classes, ci)
  {
    MixinsExactly(classes, ci, 0);
    hide MixinsProblem;
    if MixinsInOrder(classes, ci) {
      forall k | 0 <= k < |ci.mixins|
        ensures MixinProblem(classes, ci, k).None?
      {
        MixinExactly(classes, ci, k);
      }
    } else if forall k :: 0 <= k < |ci.mixins| ==> MixinProblem(classes, ci, k).None? {
      forall k | 0 <= k < |ci.mixins|
        ensures ci.mixins[k] in classes
      {
        assert MixinProblem(classes, ci, k).None?;
      }
      forall k | 0 <= k < |ci.mixins|
        ensures classes[ci.mixins[k]].kind.Virtual? && classes[ci.mixins[k]].accessors == {}
        ensures classes[ci.mixins[k]].methods.Keys !! ci.methods.Keys
        ensures forall j :: 0 <= j < k ==> classes[ci.mixins[k]].methods.Keys !! classes[ci.mixins[j]].methods.Keys
      {
        MixinExactly(classes, ci, k);
      }
      assert false;
    }
  }

  lemma {:induction false} HasFieldsExactly(classes: Classes, path: seq<Name>)
    requires AllKnown(classes, path)
    ensures HasFields(classes, path) <==> exists i :: 0 <= i < |path| && classes[path[i]].kind.Field?
  {
    if path != [] {
      HasFieldsExactly(classes, path[1..]);
      assert forall i :: 1 <= i < |path| ==> path[i] == path[1..][i - 1];
    }
  }

  lemma {:induction false} AllMethodsExactly(classes: Classes, path: seq<Name>, m: Name)
    requires AllKnown(classes, path)
    ensures m in AllMethods(classes, path) <==> exists i :: 0 <= i < |path| && HasMethod(classes, classes[path[i]], m)
  {
    if path != [] {
      TakenHas(classes, classes[path[0]], |classes[path[0]].mixins|, m);
      AllMethodsExactly(classes, path[1..], m);
      hide HasMethod, Taken;
      assert forall i :: 1 <= i < |path| ==> path[i] == path[1..][i - 1];
      assert m in MethodNames(classes, classes[path[0]]) <==> HasMethod(classes, classes[path[0]], m);
    }
  }

  /** A property is there if its class is on the line, and is the first or has fields at or above it. */
  lemma {:induction false} AllPropsExactly(classes: Classes, path: seq<Name>, q: Name)
    requires AllKnown(classes, path)
    ensures q in AllProps(classes, path) <==>
      exists j :: 0 <= j < |path| && q in classes[path[j]].props && (j == 0 || HasFields(classes, path[j..]))
  {
    if path != [] {
      var above := path[1..];
      AllPropsExactly(classes, above, q);
      hide AllProps;
      forall j | 1 <= j < |path|
        ensures path[j] == above[j - 1] && path[j..] == above[j - 1..]
        ensures HasFields(classes, path[j..]) ==> HasFields(classes, above)
      {
        HasFieldsExactly(classes, path[j..]);
        HasFieldsExactly(classes, above);
        if i :| 0 <= i < |path[j..]| && classes[path[j..][i]].kind.Field? {
          assert above[j - 1 + i] == path[j..][i];
        }
      }
      assert above[0..] == above;
    }
  }

  /** With fields on the line, its properties are those of the classes up to the highest one with fields. */
  lemma FieldProps(classes: Classes, path: seq<Name>, q: Name)
    requires AllKnown(classes, path) && HasFields(classes, path)
    ensures q in AllProps(classes, path) <==>
      exists j, k :: 0 <= j <= k < |path| && classes[path[k]].kind.Field? && q in classes[path[j]].props
  {
    AllPropsExactly(classes, path, q);
    hide AllProps, HasFields;
    forall j | 0 <= j < |path|
      ensures HasFields(classes, path[j..]) <==> exists k :: j <= k < |path| && classes[path[k]].kind.Field?
    {
      HasFieldsExactly(classes, path[j..]);
      assert forall i :: 0 <= i < |path| - j ==> path[j..][i] == path[j + i];
      if k :| j <= k < |path| && classes[path[k]].kind.Field? {
        assert path[j..][k - j] == path[k];
      }
    }
    assert path[0..] == path;
  }

  // ----- one class at a time -----

  lemma MethodsStep(classes: Classes, path: seq<Name>)
    requires AllKnown(classes, path) && path != []
    ensures MethodsOnce(classes, path) <==>
      && (forall m :: HasMethod(classes, classes[path[0]], m) ==> m !in AllMethods(classes, path[1..]))
      && MethodsOnce(classes, path[1..])
  {
    var above := path[1..];
    forall m
      ensures m in AllMethods(classes, above) <==> exists i :: 0 <= i < |above| && HasMethod(classes, classes[above[i]], m)
    {
      AllMethodsExactly(classes, above, m);
    }
    hide HasMethod, AllMethods;
    assert forall i :: 1 <= i < |path| ==> path[i] == above[i - 1];
    assert forall i :: 0 <= i < |above| ==> above[i] == path[i + 1];
  }

  lemma PropsStep(classes: Classes, path: seq<Name>)
    requires AllKnown(classes, path) && path != []
    ensures PropsOnce(classes, path) <==>
      && (HasFields(classes, path[1..]) ==> classes[path[0]].props !! AllProps(classes, path[1..]))
      && PropsOnce(classes, path[1..])
  {
    var above := path[1..];
    HasFieldsExactly(classes, above);
    forall q | HasFields(classes, above)
      ensures q in AllProps(classes, above) <==>
        exists j, k :: 0 <= j <= k < |above| && classes[above[k]].kind.Field? && q in classes[above[j]].props
    {
      FieldProps(classes, above, q);
    }
    hide AllProps, HasFields;
    assert forall i :: 1 <= i < |path| ==> path[i] == above[i - 1];
    assert forall i :: 0 <= i < |above| ==> above[i] == path[i + 1];
  }

  lemma RestStep(classes: Classes, path: seq<Name>)
    requires AllKnown(classes, path) && path != []
    ensures AllMixinsInOrder(classes, path)
      <==> MixinsInOrder(classes, classes[path[0]]) && AllMixinsInOrder(classes, path[1..])
    ensures Inheritable(classes, path) <==>
      && (|path| >= 2 ==> !classes[path[1]].kind.CData? && classes[path[1]].accessors == {})
      && Inheritable(classes, path[1..])
    ensures CDataStaysApart(classes, path) <==> (classes[path[0]].kind.CData? ==> !HasFields(classes, path[1..]))
    ensures Inheritable(classes, path) ==> CDataStaysApart(classes, path[1..])
  {
    HasFieldsExactly(classes, path[1..]);
    hide MixinsInOrder, HasFields;
    assert forall i :: 1 <= i < |path| ==> path[i] == path[1..][i - 1];
    assert forall i :: 0 <= i < |path[1..]| ==> path[1..][i] == path[i + 1];
  }

  lemma ParentExactly(classes: Classes, path: seq<Name>)
    requires AllKnown(classes, path) && |path| >= 2
    ensures ParentProblem(classes, path).None? <==>
      var ci, above := classes[path[0]], path[1..];
      && !classes[path[1]].kind.CData? && classes[path[1]].accessors == {}
      && (ci.kind.CData? ==> !HasFields(classes, above))
      && (HasFields(classes, above) ==> ci.props !! AllProps(classes, above))
      && (forall m :: HasMethod(classes, ci, m) ==> m !in AllMethods(classes, above))
  {
    var ci, above := classes[path[0]], path[1..];
    forall m
      ensures m in MethodNames(classes, ci) <==> HasMethod(classes, ci, m)
    {
      TakenHas(classes, ci, |ci.mixins|, m);
    }
    hide HasMethod, MethodNames, AllProps, AllMethods, HasFields;
    Disjoint(MethodNames(classes, ci), AllMethods(classes, above));
    Disjoint(ci.props, AllProps(classes, above));
  }

  lemma Disjoint(a: set<Name>, b: set<Name>)
    ensures b * a == {} <==> forall m :: m in a ==> m !in b
    ensures b * a == {} <==> a !! b
  {
    assert b * a == {} ==> forall m :: m in a ==> m !in b * a;
  }

  /** Both ways along the line find nothing wrong if and only if the line fits. */
  lemma {:induction false} FitsExactly(classes: Classes, path: seq<Name>)
    requires AllKnown(classes, path)
    ensures FromBelow(classes, path).None? && FromAbove(classes, path).None? <==> Fits(classes, path)
  {
    if path != [] {
      var above := path[1..];
      FitsExactly(classes, above);
      InOrderExactly(classes, classes[path[0]]);
      RestStep(classes, path);
      MethodsStep(classes, path);
      PropsStep(classes, path);
      hide MixinsProblem, MixinsInOrder, HasMethod, ParentProblem, AllMixinsInOrder, Inheritable, CDataStaysApart, MethodsOnce,
        PropsOnce, AllProps, AllMethods;
      if |path| >= 2 {
        ParentExactly(classes, path);
      } else {
        assert above == [];
      }
    }
  }

  /** The pass completes a class if and only if its chain of parents ends in the table and the line of its ancestors fits. */
  lemma CompleteExactly(classes: Classes, name: Name)
    ensures Complete(classes, name, {}).Ok? <==> Ends(classes, name) && Fits(classes, Path(classes, name, {}))
  {
    VerdictIs(classes, name, {});
    StopExactly(classes, name);
    FitsExactly(classes, Path(classes, name, {}));
    hide Complete, Path, Fits, Stop, FromBelow, FromAbove, Ends;
  }
}
