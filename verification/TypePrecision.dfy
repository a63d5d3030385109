/** How much `lookupPath` of `scripts/gen-config-catalog.ts` can tell: where its `seen` set plays no part
    it says `unknown` only of paths that are there in one reading and not in another. */
module TypePrecision {
  import opened Options
  import opened TypePaths
  import opened TypeGuard

  /** Under the reading the path is there. */
  ghost predicate There(rd: Reading, w: World, file: string, node: Node, steps: seq<Step>) {
    exists k :: Has(rd, k, w, file, node, steps)
  }

  // ---------------------------------------------------------------- the answer in any depth

  /** More fuel changes neither the answer nor what is met. */
  lemma {:induction false} Stable(f: nat, g: nat, w: World, file: string, node: Node, steps: seq<Step>)
    requires f <= g && Unguarded(f, w, file, node, steps).Some?
    ensures Unguarded(g, w, file, node, steps) == Unguarded(f, w, file, node, steps)
    decreases f, 0
  {
    if steps != [] {
      if Guarded(w, node) {
        if w.decls[node.id].Interface? {
          InterfaceStable(f - 1, g - 1, w, file, node.id, steps);
        } else {
          Stable(f - 1, g - 1, w, file, TypeNode(w.decls[node.id].body), steps);
        }
      } else if node.TypeNode? {
        TypeStable(f - 1, g - 1, w, file, node.ty, steps);
      }
    }
  }

  lemma PropStable(f: nat, g: nat, w: World, file: string, prop: Prop, steps: seq<Step>)
    requires f <= g && steps != [] && prop.Prop? && UnguardedProp(f, w, file, prop, steps).Some?
    ensures UnguardedProp(g, w, file, prop, steps) == UnguardedProp(f, w, file, prop, steps)
    decreases f, 1
  {
    if |steps| > 1 && prop.ty.Some? {
      Stable(f, g, w, file, TypeNode(prop.ty.value), steps[1..]);
    }
  }

  lemma {:induction false} TargetsStable(f: nat, g: nat, w: World, targets: seq<Target>, steps: seq<Step>)
    requires f <= g && UnguardedTargets(f, w, targets, steps).Some?
    ensures UnguardedTargets(g, w, targets, steps) == UnguardedTargets(f, w, targets, steps)
    decreases f, 1, |targets|
  {
    if targets != [] {
      var n := |targets| - 1;
      TargetsStable(f, g, w, targets[..n], steps);
      if targets[n].At? {
        Stable(f, g, w, targets[n].file, targets[n].node, steps);
      }
    }
  }

  lemma InterfaceStable(f: nat, g: nat, w: World, file: string, id: Id, steps: seq<Step>)
    requires f <= g && steps != [] && id in w.decls && w.decls[id].Interface?
    requires UnguardedInterface(f, w, file, id, steps).Some?
    ensures UnguardedInterface(g, w, file, id, steps) == UnguardedInterface(f, w, file, id, steps)
    decreases f, 2
  {
    var d := w.decls[id];
    if steps[0].Member? {
      match FirstProp(d.members, steps[0].name)
      case Some(i) => PropStable(f, g, w, file, d.members[i], steps);
      case None => TargetsStable(f, g, w, BaseTargets(w, file, d.bases), steps);
    }
  }

  lemma TypeStable(f: nat, g: nat, w: World, file: string, ty: Type, steps: seq<Step>)
    requires f <= g && steps != [] && UnguardedType(f, w, file, ty, steps).Some?
    ensures UnguardedType(g, w, file, ty, steps) == UnguardedType(f, w, file, ty, steps)
    decreases f, 3
  {
    match ty
    case TypeLiteral(members) =>
      if steps[0].Member? && FirstProp(members, steps[0].name).Some? {
        PropStable(f, g, w, file, members[FirstProp(members, steps[0].name).value], steps);
      }
    case Parenthesized(inner) => Stable(f, g, w, file, TypeNode(inner), steps);
    case Operator(inner) => Stable(f, g, w, file, TypeNode(inner), steps);
    case Intersection(parts) => TargetsStable(f, g, w, PartTargets(file, parts), steps);
    case Union(parts) => TargetsStable(f, g, w, PartTargets(file, parts), steps);
    case ArrayOf(element) =>
      if steps[0].Element? { Stable(f, g, w, file, TypeNode(element), steps[1..]); }
    case Indexed(obj, key) =>
      if key.Some? { Stable(f, g, w, file, TypeNode(obj), [Member(key.value)] + steps); }
    case Ref(head, qualified, args) =>
      if head in PASSTHROUGH && args != [] {
        Stable(f, g, w, file, TypeNode(args[0]), steps);
      } else if head in ARRAYS && args != [] {
        if steps[0].Element? { Stable(f, g, w, file, TypeNode(args[0]), steps[1..]); }
      } else if !qualified && Resolve(w, file, head).Some? {
        var id := Resolve(w, file, head).value;
        Stable(f, g, w, id.file, DeclNode(id), steps);
      }
    case OtherType =>
  }

  // ---------------------------------------------------------------- two extreme readings

  /** In some depth the walk without its guard answers something else. */
  ghost predicate Not(a: PathLookup, w: World, file: string, node: Node, steps: seq<Step>) {
    exists f: nat :: Unguarded(f, w, file, node, steps).Some? && Unguarded(f, w, file, node, steps).value.answer != a
  }

  lemma NotIs(a: PathLookup, f: nat, w: World, file: string, node: Node, steps: seq<Step>)
    requires Unguarded(f, w, file, node, steps).Some?
    ensures Not(a, w, file, node, steps) <==> Unguarded(f, w, file, node, steps).value.answer != a
  {
    if g: nat :| Unguarded(g, w, file, node, steps).Some? && Unguarded(g, w, file, node, steps).value.answer != a {
      if f <= g { Stable(f, g, w, file, node, steps); } else { Stable(g, f, w, file, node, steps); }
    }
  }

  /** A branch of a union that does not answer `a`, if there is one. */
  ghost function BranchNot(a: PathLookup, w: World, file: string, node: Node, steps: seq<Step>): (j: nat)
    ensures node.TypeNode? && node.ty.Union? && node.ty.parts != [] ==> j < |node.ty.parts|
    ensures node.TypeNode? && node.ty.Union? ==>
      forall i :: 0 <= i < |node.ty.parts| && Not(a, w, file, TypeNode(node.ty.parts[i]), steps) ==>
        Not(a, w, file, TypeNode(node.ty.parts[j]), steps)
  {
    if node.TypeNode? && node.ty.Union?
        && exists i :: 0 <= i < |node.ty.parts| && Not(a, w, file, TypeNode(node.ty.parts[i]), steps) then
      var i :| 0 <= i < |node.ty.parts| && Not(a, w, file, TypeNode(node.ty.parts[i]), steps); i
    else 0
  }

  /** Nothing opaque has any path, and every value takes a branch that the walk does not find it in. */
  ghost function Sparsest(w: World): Reading {
    Reading((file, node, steps) => false, (file, node, steps) => BranchNot(Found, w, file, node, steps))
  }

  /** Everything opaque has every path, and every value takes a branch the walk does not miss it in. */
  ghost function Richest(w: World): Reading {
    Reading((file, node, steps) => true, (file, node, steps) => BranchNot(Missing, w, file, node, steps))
  }

  lemma {:induction false} AnswerOf(f: nat, w: World, targets: seq<Target>, steps: seq<Step>, j: nat)
    requires j < |targets| && UnguardedTargets(f, w, targets, steps).Some?
    ensures |UnguardedTargets(f, w, targets, steps).value.answers| == |targets|
    ensures UnguardedTarget(f, w, targets[j], steps).Some?
    ensures UnguardedTarget(f, w, targets[j], steps).value.answer
         == UnguardedTargets(f, w, targets, steps).value.answers[j]
    decreases |targets|
  {
    var n := |targets| - 1;
    AnswerTotal(f, w, targets[..n], steps);
    if j < n {
      AnswerOf(f, w, targets[..n], steps, j);
    }
  }

  lemma {:induction false} AnswerTotal(f: nat, w: World, targets: seq<Target>, steps: seq<Step>)
    requires UnguardedTargets(f, w, targets, steps).Some?
    ensures |UnguardedTargets(f, w, targets, steps).value.answers| == |targets|
    decreases |targets|
  {
    if targets != [] {
      AnswerTotal(f, w, targets[..|targets| - 1], steps);
    }
  }

  /** The branch the extreme readings take at a union. */
  lemma UnionBranch(a: PathLookup, f: nat, w: World, file: string, parts: seq<Type>, steps: seq<Step>) returns (j: nat)
    requires parts != [] && UnguardedTargets(f, w, PartTargets(file, parts), steps).Some?
    requires exists r :: r in UnguardedTargets(f, w, PartTargets(file, parts), steps).value.answers && r != a
    ensures j == BranchNot(a, w, file, TypeNode(Union(parts)), steps) && j < |parts|
    ensures Unguarded(f, w, file, TypeNode(parts[j]), steps).Some?
    ensures Unguarded(f, w, file, TypeNode(parts[j]), steps).value.answer != a
  {
    hide Unguarded;
    var targets := PartTargets(file, parts);
    var answers := UnguardedTargets(f, w, targets, steps).value.answers;
    AnswerTotal(f, w, targets, steps);
    var i :| 0 <= i < |answers| && answers[i] != a;
    AnswerOf(f, w, targets, steps, i);
    assert Not(a, w, file, TypeNode(parts[i]), steps);
    j := BranchNot(a, w, file, TypeNode(Union(parts)), steps);
    AnswerOf(f, w, targets, steps, j);
    NotIs(a, f, w, file, TypeNode(parts[j]), steps);
  }

  // ---------------------------------------------------------------- what is not found

  /** What the walk does not find is not there in the sparsest reading. */
  lemma {:induction false} SparsestLacks(f: nat, w: World, file: string, node: Node, steps: seq<Step>, k: nat,
          names: set<string>)
    requires Clear(w, node, steps, names) && Unguarded(f, w, file, node, steps).Some?
    requires Unguarded(f, w, file, node, steps).value.answer != Found
    ensures !Has(Sparsest(w), k, w, file, node, steps)
    decreases f, 0
  {
    hide LegibleWorld, Legible, Named, Has, UnguardedType, UnguardedInterface;
    if k == 0 {
      NothingAtZero(Sparsest(w), w, file, node, steps);
    } else if Guarded(w, node) {
      if w.decls[node.id].Interface? {
        LacksInterface(f - 1, w, file, node.id, steps, k, names);
      } else {
        BodyClear(w, node, steps, names);
        SparsestLacks(f - 1, w, file, TypeNode(w.decls[node.id].body), steps, k - 1, names);
        AliasHas(Sparsest(w), k, w, file, node.id, steps);
      }
    } else if node.TypeNode? {
      LacksType(f - 1, w, file, node.ty, steps, k, names);
    } else {
      OpaqueDecl(Sparsest(w), k, w, file, node, steps);
    }
  }

  lemma NothingAtZero(rd: Reading, w: World, file: string, node: Node, steps: seq<Step>)
    requires steps != []
    ensures !Has(rd, 0, w, file, node, steps)
  {
  }

  lemma AliasHas(rd: Reading, k: nat, w: World, file: string, id: Id, steps: seq<Step>)
    requires steps != [] && k > 0 && id in w.decls && w.decls[id].Alias?
    ensures Has(rd, k, w, file, DeclNode(id), steps) <==> Has(rd, k - 1, w, file, TypeNode(w.decls[id].body), steps)
  {
  }

  lemma OpaqueDecl(rd: Reading, k: nat, w: World, file: string, node: Node, steps: seq<Step>)
    requires steps != [] && k > 0 && node.DeclNode? && !Guarded(w, node)
    ensures Has(rd, k, w, file, node, steps) <==> rd.opaquePath(file, node, steps)
  {
  }

  lemma BodyClear(w: World, node: Node, steps: seq<Step>, names: set<string>)
    requires Clear(w, node, steps, names) && node.DeclNode? && node.id in w.decls && w.decls[node.id].Alias?
    ensures Clear(w, TypeNode(w.decls[node.id].body), steps, names)
  {
  }

  lemma LacksProp(f: nat, w: World, file: string, node: Node, prop: Prop, steps: seq<Step>, k: nat,
          names: set<string>)
    requires steps != [] && prop.Prop? && LegibleProp(prop, names) && LegibleWorld(w, names) && Named(steps, names)
    requires UnguardedProp(f, w, file, prop, steps).Some?
    requires UnguardedProp(f, w, file, prop, steps).value.answer != Found
    ensures !MemberHas(Sparsest(w), k, w, file, node, prop, steps)
    decreases f, 1
  {
    if prop.ty.Some? {
      SparsestLacks(f, w, file, TypeNode(prop.ty.value), steps[1..], k, names);
    }
  }

  lemma LacksMembers(f: nat, w: World, file: string, node: Node, members: seq<Prop>, i: nat, steps: seq<Step>, k: nat,
          names: set<string>)
    requires steps != [] && steps[0].Member? && Declares(members, steps[0].name, i)
    requires LegibleProp(members[i], names) && LegibleWorld(w, names) && Named(steps, names)
    requires UnguardedProp(f, w, file, members[i], steps).Some?
    requires UnguardedProp(f, w, file, members[i], steps).value.answer != Found
    ensures forall j: nat :: Declares(members, steps[0].name, j) ==>
        !MemberHas(Sparsest(w), k, w, file, node, members[j], steps)
    decreases f, 2
  {
    LacksProp(f, w, file, node, members[i], steps, k, names);
    forall j: nat | Declares(members, steps[0].name, j)
      ensures !MemberHas(Sparsest(w), k, w, file, node, members[j], steps)
    {
      DeclaredOnce(members, steps[0].name, i, j);
    }
  }

  lemma InterfaceHas(rd: Reading, k: nat, w: World, file: string, id: Id, steps: seq<Step>)
    requires steps != [] && k > 0 && id in w.decls && w.decls[id].Interface?
    ensures var node, d := DeclNode(id), w.decls[id];
      Has(rd, k, w, file, node, steps) <==>
        if steps[0].Element? then rd.opaquePath(file, node, steps)
        else
          || (exists i: nat ::
                Declares(d.members, steps[0].name, i) && MemberHas(rd, k - 1, w, file, node, d.members[i], steps))
          || (&& DeclaresNone(d.members, steps[0].name)
              && exists j :: 0 <= j < |d.bases| && BaseHas(rd, k - 1, w, file, node, d.bases[j], steps))
  {
  }

  lemma LacksBase(f: nat, w: World, file: string, id: Id, bases: seq<Option<string>>, steps: seq<Step>, k: nat, j: nat,
          names: set<string>)
    requires steps != [] && j < |bases| && LegibleWorld(w, names) && Named(steps, names)
    requires UnguardedTarget(f, w, BaseTargets(w, file, bases)[j], steps).Some?
    requires UnguardedTarget(f, w, BaseTargets(w, file, bases)[j], steps).value.answer != Found
    ensures !BaseHas(Sparsest(w), k, w, file, DeclNode(id), bases[j], steps)
    decreases f, 2
  {
    var target := BaseTargets(w, file, bases)[j];
    if target.At? {
      SparsestLacks(f, w, target.file, target.node, steps, k, names);
    }
  }

  lemma LacksInterface(f: nat, w: World, file: string, id: Id, steps: seq<Step>, k: nat, names: set<string>)
    requires steps != [] && k > 0 && id in w.decls && w.decls[id].Interface?
    requires LegibleWorld(w, names) && Named(steps, names) && UnguardedInterface(f, w, file, id, steps).Some?
    requires UnguardedInterface(f, w, file, id, steps).value.answer != Found
    ensures !Has(Sparsest(w), k, w, file, DeclNode(id), steps)
    decreases f, 3
  {
    hide Has, MemberHas, BaseHas;
    var d := w.decls[id];
    InterfaceHas(Sparsest(w), k, w, file, id, steps);
    if steps[0].Member? {
      SameMember(d.members, steps[0].name, names);
      match FirstProp(d.members, steps[0].name)
      case Some(i) => LacksMembers(f, w, file, DeclNode(id), d.members, i, steps, k - 1, names);
      case None =>
        var targets := BaseTargets(w, file, d.bases);
        AnswerTotal(f, w, targets, steps);
        forall j | 0 <= j < |d.bases|
          ensures !BaseHas(Sparsest(w), k - 1, w, file, DeclNode(id), d.bases[j], steps)
        {
          AnswerOf(f, w, targets, steps, j);
          assert UnguardedTargets(f, w, targets, steps).value.answers[j] != Found;
          LacksBase(f, w, file, id, d.bases, steps, k - 1, j, names);
        }
    }
  }

  lemma LacksAll(f: nat, w: World, file: string, parts: seq<Type>, steps: seq<Step>, k: nat, names: set<string>)
    requires steps != [] && Clear(w, TypeNode(Intersection(parts)), steps, names)
    requires UnguardedTargets(f, w, PartTargets(file, parts), steps).Some?
    requires Combine(UnguardedTargets(f, w, PartTargets(file, parts), steps).value.answers) != Found
    ensures forall j :: 0 <= j < |parts| ==> !Has(Sparsest(w), k, w, file, TypeNode(parts[j]), steps)
    decreases f, 1
  {
    hide LegibleWorld, Named, Has, Unguarded;
    var targets := PartTargets(file, parts);
    AnswerTotal(f, w, targets, steps);
    forall j | 0 <= j < |parts|
      ensures !Has(Sparsest(w), k, w, file, TypeNode(parts[j]), steps)
    {
      AnswerOf(f, w, targets, steps, j);
      assert UnguardedTargets(f, w, targets, steps).value.answers[j] != Found;
      SparsestLacks(f, w, file, TypeNode(parts[j]), steps, k, names);
    }
  }

  lemma LacksBranch(f: nat, w: World, file: string, parts: seq<Type>, steps: seq<Step>, k: nat, names: set<string>)
    requires steps != [] && k > 0 && Clear(w, TypeNode(Union(parts)), steps, names)
    requires UnguardedTargets(f, w, PartTargets(file, parts), steps).Some?
    requires Agree(UnguardedTargets(f, w, PartTargets(file, parts), steps).value.answers) != Found
    ensures !Has(Sparsest(w), k, w, file, TypeNode(Union(parts)), steps)
    decreases f, 1
  {
    hide LegibleWorld, Named, Has, Unguarded, BranchNot;
    AnswerTotal(f, w, PartTargets(file, parts), steps);
    var j := UnionBranch(Found, f, w, file, parts, steps);
    SparsestLacks(f, w, file, TypeNode(parts[j]), steps, k - 1, names);
    UnionHas(Sparsest(w), k, w, file, parts, steps, j);
  }

  lemma UnionHas(rd: Reading, k: nat, w: World, file: string, parts: seq<Type>, steps: seq<Step>, j: nat)
    requires steps != [] && k > 0 && j < |parts| && j == rd.branch(file, TypeNode(Union(parts)), steps)
    ensures Has(rd, k, w, file, TypeNode(Union(parts)), steps) <==> Has(rd, k - 1, w, file, TypeNode(parts[j]), steps)
  {
  }

  lemma LacksLiteral(f: nat, w: World, file: string, members: seq<Prop>, steps: seq<Step>, k: nat, names: set<string>)
    requires steps != [] && k > 0 && Clear(w, TypeNode(TypeLiteral(members)), steps, names)
    requires UnguardedType(f, w, file, TypeLiteral(members), steps).Some?
    requires UnguardedType(f, w, file, TypeLiteral(members), steps).value.answer != Found
    ensures !Has(Sparsest(w), k, w, file, TypeNode(TypeLiteral(members)), steps)
    decreases f, 3
  {
    hide Has, MemberHas;
    LiteralHas(Sparsest(w), k, w, file, members, steps);
    if steps[0].Member? {
      SameMember(members, steps[0].name, names);
      match FirstProp(members, steps[0].name)
      case Some(i) => LacksMembers(f, w, file, TypeNode(TypeLiteral(members)), members, i, steps, k - 1, names);
      case None =>
    }
  }

  lemma LiteralHas(rd: Reading, k: nat, w: World, file: string, members: seq<Prop>, steps: seq<Step>)
    requires steps != [] && k > 0
    ensures var node := TypeNode(TypeLiteral(members));
      Has(rd, k, w, file, node, steps) <==>
        if steps[0].Element? then rd.opaquePath(file, node, steps)
        else exists i: nat ::
          Declares(members, steps[0].name, i) && MemberHas(rd, k - 1, w, file, node, members[i], steps)
  {
  }

  lemma LacksType(f: nat, w: World, file: string, ty: Type, steps: seq<Step>, k: nat, names: set<string>)
    requires steps != [] && k > 0 && Clear(w, TypeNode(ty), steps, names)
    requires UnguardedType(f, w, file, ty, steps).Some? && UnguardedType(f, w, file, ty, steps).value.answer != Found
    ensures !Has(Sparsest(w), k, w, file, TypeNode(ty), steps)
    decreases f, 4
  {
    match ty {
    case TypeLiteral(members) => LacksLiteral(f, w, file, members, steps, k, names);
    case Intersection(parts) => LacksAll(f, w, file, parts, steps, k - 1, names);
    case Union(parts) => LacksBranch(f, w, file, parts, steps, k, names);
    case Indexed(obj, key) =>
      if key.Some? {
        SparsestLacks(f, w, file, TypeNode(obj), [Member(key.value)] + steps, k - 1, names);
      }
    case ArrayOf(element) =>
      if steps[0].Element? { SparsestLacks(f, w, file, TypeNode(element), steps[1..], k - 1, names); }
    case Ref(head, qualified, args) => LacksRef(f, w, file, ty, steps, k, names);
    case Parenthesized(inner) => SparsestLacks(f, w, file, TypeNode(inner), steps, k - 1, names);
    case Operator(inner) => SparsestLacks(f, w, file, TypeNode(inner), steps, k - 1, names);
    case OtherType =>
    }
  }

  lemma LacksRef(f: nat, w: World, file: string, ty: Type, steps: seq<Step>, k: nat, names: set<string>)
    requires steps != [] && k > 0 && ty.Ref? && Clear(w, TypeNode(ty), steps, names)
    requires UnguardedType(f, w, file, ty, steps).Some? && UnguardedType(f, w, file, ty, steps).value.answer != Found
    ensures !Has(Sparsest(w), k, w, file, TypeNode(ty), steps)
    decreases f, 2
  {
    if ty.head in PASSTHROUGH && ty.args != [] {
      SparsestLacks(f, w, file, TypeNode(ty.args[0]), steps, k - 1, names);
    } else if ty.head in ARRAYS && ty.args != [] {
      if steps[0].Element? { SparsestLacks(f, w, file, TypeNode(ty.args[0]), steps[1..], k - 1, names); }
    } else if !ty.qualified && Resolve(w, file, ty.head).Some? {
      var id := Resolve(w, file, ty.head).value;
      SparsestLacks(f, w, id.file, DeclNode(id), steps, k - 1, names);
    }
  }

  // ---------------------------------------------------------------- what is not missing

  /** What the walk does not miss is there in the richest reading. */
  lemma {:induction false} RichestHas(f: nat, w: World, file: string, node: Node, steps: seq<Step>, names: set<string>)
    returns (k: nat)
    requires Clear(w, node, steps, names) && Unguarded(f, w, file, node, steps).Some?
    requires Unguarded(f, w, file, node, steps).value.answer != Missing
    ensures Has(Richest(w), k, w, file, node, steps)
    decreases f, 0
  {
    hide LegibleWorld, Legible, Named, Has, UnguardedType, UnguardedInterface;
    if steps == [] {
      k := 0;
      EmptyPath(Richest(w), w, file, node);
    } else if Guarded(w, node) {
      if w.decls[node.id].Interface? {
        k := HasInterface(f - 1, w, file, node.id, steps, names);
      } else {
        BodyClear(w, node, steps, names);
        k := RichestHas(f - 1, w, file, TypeNode(w.decls[node.id].body), steps, names);
        k := k + 1;
        AliasHas(Richest(w), k, w, file, node.id, steps);
      }
    } else if node.TypeNode? {
      k := HasType(f - 1, w, file, node.ty, steps, names);
    } else {
      k := 1;
      OpaqueDecl(Richest(w), k, w, file, node, steps);
    }
  }

  lemma EmptyPath(rd: Reading, w: World, file: string, node: Node)
    ensures Has(rd, 0, w, file, node, [])
  {
  }

  lemma HasProp(f: nat, w: World, file: string, node: Node, prop: Prop, steps: seq<Step>, names: set<string>)
    returns (k: nat)
    requires steps != [] && prop.Prop? && LegibleProp(prop, names) && LegibleWorld(w, names) && Named(steps, names)
    requires UnguardedProp(f, w, file, prop, steps).Some?
    requires UnguardedProp(f, w, file, prop, steps).value.answer != Missing
    ensures MemberHas(Richest(w), k, w, file, node, prop, steps)
    decreases f, 1
  {
    k := 0;
    if |steps| > 1 && prop.ty.Some? {
      k := RichestHas(f, w, file, TypeNode(prop.ty.value), steps[1..], names);
    }
  }

  lemma HasInterface(f: nat, w: World, file: string, id: Id, steps: seq<Step>, names: set<string>) returns (k: nat)
    requires steps != [] && id in w.decls && w.decls[id].Interface?
    requires LegibleWorld(w, names) && Named(steps, names) && UnguardedInterface(f, w, file, id, steps).Some?
    requires UnguardedInterface(f, w, file, id, steps).value.answer != Missing
    ensures Has(Richest(w), k, w, file, DeclNode(id), steps)
    decreases f, 3
  {
    var d := w.decls[id];
    k := 0;
    if steps[0].Member? {
      SameMember(d.members, steps[0].name, names);
      match FirstProp(d.members, steps[0].name) {
        case Some(i) => k := HasProp(f, w, file, DeclNode(id), d.members[i], steps, names);
        case None => k := HasBase(f, w, file, id, d.bases, steps, names);
      }
    }
    k := k + 1;
  }

  lemma HasBase(f: nat, w: World, file: string, id: Id, bases: seq<Option<string>>, steps: seq<Step>,
          names: set<string>)
    returns (k: nat)
    requires steps != [] && LegibleWorld(w, names) && Named(steps, names)
    requires UnguardedTargets(f, w, BaseTargets(w, file, bases), steps).Some?
    requires Combine(UnguardedTargets(f, w, BaseTargets(w, file, bases), steps).value.answers) != Missing
    ensures exists j :: 0 <= j < |bases| && BaseHas(Richest(w), k, w, file, DeclNode(id), bases[j], steps)
    decreases f, 2
  {
    var targets := BaseTargets(w, file, bases);
    var answers := UnguardedTargets(f, w, targets, steps).value.answers;
    AnswerTotal(f, w, targets, steps);
    var j :| 0 <= j < |answers| && answers[j] != Missing;
    AnswerOf(f, w, targets, steps, j);
    k := 0;
    if targets[j].At? {
      k := RichestHas(f, w, targets[j].file, targets[j].node, steps, names);
    }
    assert BaseHas(Richest(w), k, w, file, DeclNode(id), bases[j], steps);
  }

  lemma HasPart(f: nat, w: World, file: string, parts: seq<Type>, steps: seq<Step>, names: set<string>)
    returns (k: nat)
    requires steps != [] && Clear(w, TypeNode(Intersection(parts)), steps, names)
    requires UnguardedTargets(f, w, PartTargets(file, parts), steps).Some?
    requires Combine(UnguardedTargets(f, w, PartTargets(file, parts), steps).value.answers) != Missing
    ensures exists j :: 0 <= j < |parts| && Has(Richest(w), k, w, file, TypeNode(parts[j]), steps)
    decreases f, 1
  {
    hide LegibleWorld, Named, Has, Unguarded;
    var targets := PartTargets(file, parts);
    var answers := UnguardedTargets(f, w, targets, steps).value.answers;
    AnswerTotal(f, w, targets, steps);
    var j :| 0 <= j < |answers| && answers[j] != Missing;
    AnswerOf(f, w, targets, steps, j);
    k := RichestHas(f, w, file, TypeNode(parts[j]), steps, names);
  }

  lemma HasBranch(f: nat, w: World, file: string, parts: seq<Type>, steps: seq<Step>, names: set<string>)
    returns (k: nat)
    requires steps != [] && parts != [] && Clear(w, TypeNode(Union(parts)), steps, names)
    requires UnguardedTargets(f, w, PartTargets(file, parts), steps).Some?
    requires Agree(UnguardedTargets(f, w, PartTargets(file, parts), steps).value.answers) != Missing
    ensures Has(Richest(w), k + 1, w, file, TypeNode(Union(parts)), steps)
    decreases f, 1
  {
    hide LegibleWorld, Named, Has, Unguarded, BranchNot;
    var answers := UnguardedTargets(f, w, PartTargets(file, parts), steps).value.answers;
    AnswerTotal(f, w, PartTargets(file, parts), steps);
    SomeNotMissing(answers);
    var j := UnionBranch(Missing, f, w, file, parts, steps);
    k := RichestHas(f, w, file, TypeNode(parts[j]), steps, names);
    UnionHas(Richest(w), k + 1, w, file, parts, steps, j);
  }

  lemma SomeNotMissing(answers: seq<PathLookup>)
    requires answers != [] && Agree(answers) != Missing
    ensures exists r :: r in answers && r != Missing
  {
    assert answers[0] in answers;
  }

  lemma HasType(f: nat, w: World, file: string, ty: Type, steps: seq<Step>, names: set<string>) returns (k: nat)
    requires steps != [] && Clear(w, TypeNode(ty), steps, names)
    requires UnguardedType(f, w, file, ty, steps).Some? && UnguardedType(f, w, file, ty, steps).value.answer != Missing
    ensures Has(Richest(w), k, w, file, TypeNode(ty), steps)
    decreases f, 3
  {
    k := 0;
    match ty {
    case TypeLiteral(members) =>
      if steps[0].Member? {
        SameMember(members, steps[0].name, names);
        var i := FirstProp(members, steps[0].name).value;
        k := HasProp(f, w, file, TypeNode(ty), members[i], steps, names);
      }
    case Intersection(parts) => k := HasPart(f, w, file, parts, steps, names);
    case Union(parts) =>
      if parts != [] {
        k := HasBranch(f, w, file, parts, steps, names);
      }
    case Indexed(obj, key) =>
      if key.Some? {
        k := RichestHas(f, w, file, TypeNode(obj), [Member(key.value)] + steps, names);
      }
    case ArrayOf(element) =>
      if steps[0].Element? { k := RichestHas(f, w, file, TypeNode(element), steps[1..], names); }
    case Ref(head, qualified, args) => k := RefHas(f, w, file, ty, steps, names);
    case Parenthesized(inner) => k := RichestHas(f, w, file, TypeNode(inner), steps, names);
    case Operator(inner) => k := RichestHas(f, w, file, TypeNode(inner), steps, names);
    case OtherType =>
    }
    k := k + 1;
  }

  lemma RefHas(f: nat, w: World, file: string, ty: Type, steps: seq<Step>, names: set<string>) returns (k: nat)
    requires steps != [] && ty.Ref? && Clear(w, TypeNode(ty), steps, names)
    requires UnguardedType(f, w, file, ty, steps).Some? && UnguardedType(f, w, file, ty, steps).value.answer != Missing
    ensures Has(Richest(w), k + 1, w, file, TypeNode(ty), steps)
    decreases f, 2
  {
    k := 0;
    if ty.head in PASSTHROUGH && ty.args != [] {
      k := RichestHas(f, w, file, TypeNode(ty.args[0]), steps, names);
    } else if ty.head in ARRAYS && ty.args != [] {
      if steps[0].Element? { k := RichestHas(f, w, file, TypeNode(ty.args[0]), steps[1..], names); }
    } else if !ty.qualified && Resolve(w, file, ty.head).Some? {
      var id := Resolve(w, file, ty.head).value;
      k := RichestHas(f, w, id.file, DeclNode(id), steps, names);
    }
  }

  // ---------------------------------------------------------------- precision

  /** Where the walk without its guard meets no declaration twice with as many steps to go, the answer
      is exact: `found` if the path is there in every reading, `missing` if it is there in none, and
      otherwise, where it is there in some and not in others, `unknown`. */
  lemma LookupIsPrecise(f: nat, w: World, file: string, node: Node, steps: seq<Step>, seen: set<Key>,
          names: set<string>)
    requires Clear(w, node, steps, names) && Unguarded(f, w, file, node, steps).Some?
    requires Fresh(Unguarded(f, w, file, node, steps).value.met, seen)
    ensures Lookup(f, w, file, node, steps, seen).Out?
    ensures var answer := Lookup(f, w, file, node, steps, seen).answer;
            && (answer == Found <==> forall rd :: There(rd, w, file, node, steps))
            && (answer == Missing <==> forall rd :: !There(rd, w, file, node, steps))
  {
    hide Has, Unguarded, Lookup, Clear, Fresh, Sparsest, Richest;
    GuardChangesNothing(f, w, file, node, steps, seen);
    var answer := Lookup(f, w, file, node, steps, seen).answer;
    if answer == Found {
      forall rd
        ensures There(rd, w, file, node, steps)
      {
        var k := FoundIsSound(f, w, file, node, steps, seen, rd, names);
      }
    } else {
      NotEverywhere(f, w, file, node, steps, names);
    }
    if answer == Missing {
      forall rd
        ensures !There(rd, w, file, node, steps)
      {
        forall k: nat
          ensures !Has(rd, k, w, file, node, steps)
        {
          MissingIsSound(f, w, file, node, steps, seen, rd, k, names);
        }
      }
    } else {
      var k := RichestHas(f, w, file, node, steps, names);
      assert There(Richest(w), w, file, node, steps);
    }
  }

  lemma NotEverywhere(f: nat, w: World, file: string, node: Node, steps: seq<Step>, names: set<string>)
    requires Clear(w, node, steps, names) && Unguarded(f, w, file, node, steps).Some?
    requires Unguarded(f, w, file, node, steps).value.answer != Found
    ensures !There(Sparsest(w), w, file, node, steps)
  {
    hide Has, Unguarded, Clear, Sparsest;
    forall k: nat
      ensures !Has(Sparsest(w), k, w, file, node, steps)
    {
      SparsestLacks(f, w, file, node, steps, k, names);
    }
  }
}
