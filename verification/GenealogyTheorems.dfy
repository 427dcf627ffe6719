/** What a completed class is, told from the class table alone. */
module GenealogyTheorems {
  import opened Options
  import opened Genealogy

  // ----- cycles -----

  /** The class `k` parents up, while there is one. */
  function Ancestor(classes: Classes, name: Name, k: nat): Option<Name>
    decreases k
  {
    if name !in classes then None
    else if k == 0 then Some(name)
    else if classes[name].parent.None? then None
    else Ancestor(classes, classes[name].parent.value, k - 1)
  }

  /** The chain of parents never ends. */
  ghost predicate Cyclic(classes: Classes, name: Name) {
    forall k: nat :: Ancestor(classes, name, k).Some?
  }

  /** Every class can take its mixins. */
  predicate MixinsFit(classes: Classes) {
    forall n :: n in classes ==> MixIn(classes, classes[n], classes[n].mixins).Ok?
  }

  lemma {:induction false} AncestorAdd(classes: Classes, name: Name, j: nat, k: nat)
    requires Ancestor(classes, name, j).Some?
    ensures Ancestor(classes, name, j + k) == Ancestor(classes, Ancestor(classes, name, j).value, k)
    decreases j
  {
    if j > 0 {
      AncestorAdd(classes, classes[name].parent.value, j - 1, k);
    }
  }

  /** A class that can be completed has a first ancestor. */
  lemma {:induction false} CompleteEnds(classes: Classes, name: Name, below: set<Name>) returns (k: nat)
    requires Complete(classes, name, below).Ok?
    ensures Ancestor(classes, name, k).None?
    decreases |classes.Keys - below|
  {
    Unfold(classes, name, below);
    hide Complete, MixIn, Inherit;
    Shrinks(classes, name, below);
    if classes[name].parent.None? {
      k := 1;
    } else {
      var up := CompleteEnds(classes, classes[name].parent.value, below + {name});
      k := up + 1;
    }
  }

  /** A cycle is reported where the parents come back to a class the completion is wanted for, or to one of their own. */
  lemma {:induction false} CycleComesBack(classes: Classes, name: Name, below: set<Name>) returns (j: nat, k: nat)
    requires Complete(classes, name, below) == Err(Cycle)
    ensures Ancestor(classes, name, k).Some?
    ensures (j < k && Ancestor(classes, name, j) == Ancestor(classes, name, k)) || Ancestor(classes, name, k).value in below
    decreases |classes.Keys - below|
  {
    Unfold(classes, name, below);
    hide Complete, MixIn;
    if name in below {
      j, k := 0, 0;
    } else {
      Shrinks(classes, name, below);
      NoCycleInMixIn(classes, classes[name], classes[name].mixins);
      var parent := classes[name].parent.value;
      j, k := CycleComesBack(classes, parent, below + {name});
      if j < k && Ancestor(classes, parent, j) == Ancestor(classes, parent, k) {
        j, k := j + 1, k + 1;
      } else {
        j, k := 0, k + 1;
      }
    }
  }

  lemma {:induction false} NoCycleInMixIn(classes: Classes, ci: ClassInfo, mixins: seq<Name>)
    ensures MixIn(classes, ci, mixins) != Err(Cycle)
    decreases mixins
  {
    if mixins != [] && mixins[0] in classes {
      var r := Inherit(ci, classes[mixins[0]], true);
      if r.Ok? {
        NoCycleInMixIn(classes, r.value, mixins[1..]);
      }
    }
  }

  lemma {:induction false} ComesBackForever(classes: Classes, name: Name, j: nat, k: nat, n: nat)
    requires j < k && Ancestor(classes, name, k).Some? && Ancestor(classes, name, j) == Ancestor(classes, name, k)
    ensures Ancestor(classes, name, n).Some?
    decreases n
  {
    if n >= k {
      ComesBackForever(classes, name, j, k, n - (k - j));
      AncestorAdd(classes, name, k, n - k);
      AncestorAdd(classes, name, j, n - k);
    } else {
      SomeBefore(classes, name, n, k);
    }
  }

  lemma {:induction false} SomeBefore(classes: Classes, name: Name, n: nat, k: nat)
    requires n <= k && Ancestor(classes, name, k).Some?
    ensures Ancestor(classes, name, n).Some?
    decreases n
  {
    if n > 0 {
      SomeBefore(classes, classes[name].parent.value, n - 1, k - 1);
    }
  }

  lemma {:induction false} CyclicFails(classes: Classes, name: Name, below: set<Name>)
    requires MixinsFit(classes) && Cyclic(classes, name)
    ensures Complete(classes, name, below) == Err(Cycle)
    decreases |classes.Keys - below|
  {
    assert Ancestor(classes, name, 0).Some?;
    if name !in below {
      Shrinks(classes, name, below);
      assert Ancestor(classes, name, 1).Some?;
      var parent := classes[name].parent.value;
      forall k: nat ensures Ancestor(classes, parent, k).Some? {
        assert Ancestor(classes, name, k + 1) == Ancestor(classes, parent, k);
      }
      CyclicFails(classes, parent, below + {name});
    }
  }

  /** Where the mixins fit, the pass reports a cycle for a class exactly when its chain of parents is cyclic; and a
      class with a cyclic chain is never completed. */
  lemma CycleExactly(classes: Classes, name: Name)
    ensures Complete(classes, name, {}) == Err(Cycle) ==> Cyclic(classes, name)
    ensures Cyclic(classes, name) ==> Complete(classes, name, {}).Err?
    ensures MixinsFit(classes) ==> (Complete(classes, name, {}) == Err(Cycle) <==> Cyclic(classes, name))
  {
    if Complete(classes, name, {}) == Err(Cycle) {
      var j, k := CycleComesBack(classes, name, {});
      forall n: nat ensures Ancestor(classes, name, n).Some? {
        ComesBackForever(classes, name, j, k, n);
      }
    } else if Complete(classes, name, {}).Ok? {
      var k := CompleteEnds(classes, name, {});
    }
    if MixinsFit(classes) && Cyclic(classes, name) {
      CyclicFails(classes, name, {});
    }
  }

  // ----- what a class ends up with -----

  predicate Has(methods: map<Name, FuncInfo>, m: Name, f: FuncInfo) {
    m in methods && methods[m] == f
  }

  predicate MixinHas(classes: Classes, mixins: seq<Name>, m: Name, f: FuncInfo) {
    mixins != [] && ((mixins[0] in classes && Has(classes[mixins[0]].methods, m, f)) || MixinHas(classes, mixins[1..], m, f))
  }

  /** The class defines the method, or mixes it in. */
  predicate Owns(classes: Classes, a: Name, m: Name, f: FuncInfo) {
    a in classes && (Has(classes[a].methods, m, f) || MixinHas(classes, classes[a].mixins, m, f))
  }

  lemma InheritMethods(ci: ClassInfo, p: ClassInfo, isMixin: bool, m: Name, f: FuncInfo)
    requires Inherit(ci, p, isMixin).Ok?
    ensures Has(Inherit(ci, p, isMixin).value.methods, m, f) <==> Has(ci.methods, m, f) || Has(p.methods, m, f)
  {
    assert m in p.methods.Keys * ci.methods.Keys <==> m in p.methods && m in ci.methods;
  }

  lemma {:induction false} MixInMethods(classes: Classes, ci: ClassInfo, mixins: seq<Name>, m: Name, f: FuncInfo)
    requires MixIn(classes, ci, mixins).Ok?
    ensures Has(MixIn(classes, ci, mixins).value.methods, m, f) <==> Has(ci.methods, m, f) || MixinHas(classes, mixins, m, f)
    decreases mixins
  {
    if mixins != [] {
      var p := classes[mixins[0]];
      InheritMethods(ci, p, true, m, f);
      MixInMethods(classes, Inherit(ci, p, true).value, mixins[1..], m, f);
    }
  }

  /** A completed class has exactly the methods that it, its mixins and those of its line of ancestors define. */
  lemma {:induction false} MethodsAreUnion(classes: Classes, name: Name, below: set<Name>, m: Name, f: FuncInfo)
    requires Complete(classes, name, below).Ok?
    ensures Has(Complete(classes, name, below).value.methods, m, f)
      <==> exists a :: a in Line(classes, name, below) && Owns(classes, a, m, f)
    decreases |classes.Keys - below|
  {
    Unfold(classes, name, below);
    UnfoldLine(classes, name, below);
    Shrinks(classes, name, below);
    var mixed := MixIn(classes, classes[name], classes[name].mixins).value;
    MixInMethods(classes, classes[name], classes[name].mixins, m, f);
    if classes[name].parent.Some? {
      var parent := classes[name].parent.value;
      MethodsAreUnion(classes, parent, below + {name}, m, f);
      InheritMethods(mixed, Complete(classes, parent, below + {name}).value, false, m, f);
    }
    hide Complete, Line, MixIn, Inherit, MixinHas;
    assert Owns(classes, name, m, f) <==> Has(mixed.methods, m, f);
  }

  lemma UnfoldLine(classes: Classes, name: Name, below: set<Name>)
    requires Complete(classes, name, below).Ok?
    ensures Line(classes, name, below) == {name} +
      if classes[name].parent.None? then {} else
        (Unfold(classes, name, below); Line(classes, classes[name].parent.value, below + {name}))
  {
  }

  /** Only classes with fields have properties, as lang/stran.c sees to. */
  predicate PropsMeanField(classes: Classes) {
    forall n :: n in classes && classes[n].props != {} ==> classes[n].kind.Field?
  }

  lemma {:induction false} MixInKind(classes: Classes, ci: ClassInfo, mixins: seq<Name>)
    requires MixIn(classes, ci, mixins).Ok?
    ensures var r := MixIn(classes, ci, mixins).value; r.kind == ci.kind && r.props == ci.props
    decreases mixins
  {
    if mixins != [] {
      MixInKind(classes, Inherit(ci, classes[mixins[0]], true).value, mixins[1..]);
    }
  }

  /** A completed class has fields exactly when it or an ancestor has; c-data stays c-data. */
  lemma {:induction false} FieldFromAncestor(classes: Classes, name: Name, below: set<Name>)
    requires Complete(classes, name, below).Ok?
    ensures var kind := Complete(classes, name, below).value.kind;
      && (kind.Field? <==> exists a :: a in Line(classes, name, below) && classes[a].kind.Field?)
      && (kind.CData? <==> classes[name].kind.CData?)
    decreases |classes.Keys - below|
  {
    Unfold(classes, name, below);
    UnfoldLine(classes, name, below);
    Shrinks(classes, name, below);
    MixInKind(classes, classes[name], classes[name].mixins);
    if classes[name].parent.Some? {
      var parent := classes[name].parent.value;
      FieldFromAncestor(classes, parent, below + {name});
      KindAfter(MixIn(classes, classes[name], classes[name].mixins).value, Complete(classes, parent, below + {name}).value);
    }
    hide Complete, Line, MixIn, Inherit;
  }

  lemma KindAfter(ci: ClassInfo, p: ClassInfo)
    requires Inherit(ci, p, false).Ok?
    ensures var kind := Inherit(ci, p, false).value.kind;
      && (kind.Field? <==> ci.kind.Field? || p.kind.Field?) && (kind.CData? <==> ci.kind.CData?)
  {
  }

  /** Its properties are exactly those of its line of ancestors. */
  lemma {:induction false} PropsAreUnion(classes: Classes, name: Name, below: set<Name>, p: Name)
    requires PropsMeanField(classes) && Complete(classes, name, below).Ok?
    ensures p in Complete(classes, name, below).value.props
      <==> exists a :: a in Line(classes, name, below) && p in classes[a].props
    decreases |classes.Keys - below|
  {
    Unfold(classes, name, below);
    UnfoldLine(classes, name, below);
    Shrinks(classes, name, below);
    MixInKind(classes, classes[name], classes[name].mixins);
    if classes[name].parent.Some? {
      var parent := classes[name].parent.value;
      PropsAreUnion(classes, parent, below + {name}, p);
      FieldFromAncestor(classes, parent, below + {name});
    }
    hide Complete, Line, MixIn;
  }
}
