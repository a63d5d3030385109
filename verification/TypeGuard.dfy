/** What the shared `seen` set of `lookupPath` in `scripts/gen-config-catalog.ts` does to its answers,
    against the same walk without it. */
module TypeGuard {
  import opened Options
  import opened TypePaths

  /** An answer without the guard, and the keys met on the way, in order. */
  datatype Walked = Walked(answer: PathLookup, met: seq<Key>)

  datatype WalkedAll = WalkedAll(answers: seq<PathLookup>, met: seq<Key>)

  /** The walk without its `seen` guard, `None` where it has not returned. */
  function Unguarded(f: nat, w: World, file: string, node: Node, steps: seq<Step>): Option<Walked>
    decreases f, 0
  {
    if steps == [] then Some(Walked(Found, []))
    else if f == 0 then None
    else if Guarded(w, node) then
      var below := if w.decls[node.id].Interface? then UnguardedInterface(f - 1, w, file, node.id, steps)
                   else Unguarded(f - 1, w, file, TypeNode(w.decls[node.id].body), steps);
      if below.None? then None else Some(Walked(below.value.answer, [(node.id, |steps|)] + below.value.met))
    else if node.TypeNode? then UnguardedType(f - 1, w, file, node.ty, steps)
    else Some(Walked(Unknown, []))
  }

  function UnguardedProp(f: nat, w: World, file: string, prop: Prop, steps: seq<Step>): Option<Walked>
    requires steps != [] && prop.Prop?
    decreases f, 1
  {
    if |steps| == 1 then Some(Walked(Found, []))
    else if prop.ty.Some? then Unguarded(f, w, file, TypeNode(prop.ty.value), steps[1..])
    else Some(Walked(Unknown, []))
  }

  function UnguardedInterface(f: nat, w: World, file: string, id: Id, steps: seq<Step>): Option<Walked>
    requires steps != [] && id in w.decls && w.decls[id].Interface?
    decreases f, |w.decls[id].bases| + 3
  {
    var d := w.decls[id];
    if steps[0].Element? then Some(Walked(Unknown, []))
    else match FirstProp(d.members, steps[0].name)
      case Some(i) => UnguardedProp(f, w, file, d.members[i], steps)
      case None =>
        match UnguardedTargets(f, w, BaseTargets(w, file, d.bases), steps)
        case None => None
        case Some(all) => Some(Walked(Combine(all.answers), all.met))
  }

  function UnguardedTargets(f: nat, w: World, targets: seq<Target>, steps: seq<Step>): Option<WalkedAll>
    decreases f, |targets| + 2
  {
    if targets == [] then Some(WalkedAll([], []))
    else
      var before := UnguardedTargets(f, w, targets[..|targets| - 1], steps);
      var last := UnguardedTarget(f, w, targets[|targets| - 1], steps);
      if before.None? || last.None? then None
      else Some(WalkedAll(before.value.answers + [last.value.answer], before.value.met + last.value.met))
  }

  function UnguardedTarget(f: nat, w: World, target: Target, steps: seq<Step>): Option<Walked>
    decreases f, 1
  {
    if target.OutOfReach? then Some(Walked(Unknown, [])) else Unguarded(f, w, target.file, target.node, steps)
  }

  function UnguardedType(f: nat, w: World, file: string, ty: Type, steps: seq<Step>): Option<Walked>
    requires steps != []
    decreases f, Parts(ty) + 3
  {
    match ty
    case TypeLiteral(members) =>
      if steps[0].Element? then Some(Walked(Unknown, []))
      else (match FirstProp(members, steps[0].name)
        case Some(i) => UnguardedProp(f, w, file, members[i], steps)
        case None => Some(Walked(Missing, [])))
    case Parenthesized(inner) => Unguarded(f, w, file, TypeNode(inner), steps)
    case Intersection(parts) =>
      (match UnguardedTargets(f, w, PartTargets(file, parts), steps)
       case None => None
       case Some(all) => Some(Walked(Combine(all.answers), all.met)))
    case Union(parts) =>
      (match UnguardedTargets(f, w, PartTargets(file, parts), steps)
       case None => None
       case Some(all) => Some(Walked(Agree(all.answers), all.met)))
    case ArrayOf(element) =>
      if steps[0].Element? then Unguarded(f, w, file, TypeNode(element), steps[1..]) else Some(Walked(Unknown, []))
    case Operator(inner) => Unguarded(f, w, file, TypeNode(inner), steps)
    case Indexed(obj, key) =>
      if key.Some? then Unguarded(f, w, file, TypeNode(obj), [Member(key.value)] + steps) else Some(Walked(Unknown, []))
    case Ref(head, qualified, args) =>
      if head in PASSTHROUGH && args != [] then Unguarded(f, w, file, TypeNode(args[0]), steps)
      else if head in ARRAYS && args != [] then
        if steps[0].Element? then Unguarded(f, w, file, TypeNode(args[0]), steps[1..]) else Some(Walked(Unknown, []))
      else if qualified then Some(Walked(Unknown, []))
      else (match Resolve(w, file, head)
        case None => Some(Walked(Unknown, []))
        case Some(id) => Unguarded(f, w, id.file, DeclNode(id), steps))
    case OtherType => Some(Walked(Unknown, []))
  }

  /** The same answer, or `unknown` instead. */
  predicate Degraded(r: Outcome, a: PathLookup) {
    r.Out? && (r.answer == a || r.answer == Unknown)
  }

  predicate AllDegraded(rs: seq<PathLookup>, answers: seq<PathLookup>) {
    |rs| == |answers| && forall j :: 0 <= j < |rs| ==> rs[j] == answers[j] || rs[j] == Unknown
  }

  lemma CombineDegrades(rs: seq<PathLookup>, answers: seq<PathLookup>)
    requires AllDegraded(rs, answers)
    ensures Combine(rs) == Combine(answers) || Combine(rs) == Unknown
    ensures Agree(rs) == Agree(answers) || Agree(rs) == Unknown
  {
    if Combine(rs) == Found {
      var j :| 0 <= j < |rs| && rs[j] == Found;
      assert answers[j] == Found;
    }
    forall a | a in answers
      ensures (forall r :: r in rs ==> r == Found) ==> a == Found
      ensures (forall r :: r in rs ==> r == Missing) ==> a == Missing
    {
      var j :| 0 <= j < |answers| && answers[j] == a;
      assert rs[j] in rs;
    }
    if rs == [] {
      assert rs == answers;
    } else {
      assert rs[0] in rs && answers[0] in answers;
    }
  }

  /** The guard never turns one definite answer into the other, nor an `unknown` into either: whatever
      `seen` holds, the walk answers as it would without the guard, or `unknown`. */
  lemma {:induction false} GuardOnlyDegrades(f: nat, w: World, file: string, node: Node, steps: seq<Step>,
          seen: set<Key>)
    requires Unguarded(f, w, file, node, steps).Some?
    ensures Degraded(Lookup(f, w, file, node, steps, seen), Unguarded(f, w, file, node, steps).value.answer)
    decreases f, 0
  {
    if steps != [] {
      if Guarded(w, node) {
        var seen' := seen + {(node.id, |steps|)};
        if w.decls[node.id].Interface? {
          InterfaceDegrades(f - 1, w, file, node.id, steps, seen');
        } else {
          GuardOnlyDegrades(f - 1, w, file, TypeNode(w.decls[node.id].body), steps, seen');
        }
      } else if node.TypeNode? {
        TypeDegrades(f - 1, w, file, node.ty, steps, seen);
      }
    }
  }

  lemma PropDegrades(f: nat, w: World, file: string, prop: Prop, steps: seq<Step>, seen: set<Key>)
    requires steps != [] && prop.Prop? && UnguardedProp(f, w, file, prop, steps).Some?
    ensures Degraded(LookupProp(f, w, file, prop, steps, seen), UnguardedProp(f, w, file, prop, steps).value.answer)
    decreases f, 1
  {
    if |steps| > 1 && prop.ty.Some? {
      GuardOnlyDegrades(f, w, file, TypeNode(prop.ty.value), steps[1..], seen);
    }
  }

  lemma {:induction false} TargetsDegrade(f: nat, w: World, targets: seq<Target>, steps: seq<Step>, seen: set<Key>)
    requires UnguardedTargets(f, w, targets, steps).Some?
    ensures LookupTargets(f, w, targets, steps, seen).Outs?
    ensures AllDegraded(LookupTargets(f, w, targets, steps, seen).answers,
                        UnguardedTargets(f, w, targets, steps).value.answers)
    decreases f, 1, |targets|
  {
    if targets != [] {
      var n := |targets| - 1;
      TargetsDegrade(f, w, targets[..n], steps, seen);
      var s := LookupTargets(f, w, targets[..n], steps, seen).seen;
      if targets[n].At? {
        GuardOnlyDegrades(f, w, targets[n].file, targets[n].node, steps, s);
      }
    }
  }

  lemma InterfaceDegrades(f: nat, w: World, file: string, id: Id, steps: seq<Step>, seen: set<Key>)
    requires steps != [] && id in w.decls && w.decls[id].Interface?
    requires UnguardedInterface(f, w, file, id, steps).Some?
    ensures Degraded(LookupInterface(f, w, file, id, steps, seen),
                     UnguardedInterface(f, w, file, id, steps).value.answer)
    decreases f, 2
  {
    var d := w.decls[id];
    if steps[0].Member? {
      match FirstProp(d.members, steps[0].name)
      case Some(i) => PropDegrades(f, w, file, d.members[i], steps, seen);
      case None =>
        var targets := BaseTargets(w, file, d.bases);
        TargetsDegrade(f, w, targets, steps, seen);
        var answers := UnguardedTargets(f, w, targets, steps).value.answers;
        CombineDegrades(LookupTargets(f, w, targets, steps, seen).answers, answers);
    }
  }

  lemma PartsDegrade(f: nat, w: World, file: string, parts: seq<Type>, steps: seq<Step>, seen: set<Key>)
    requires UnguardedTargets(f, w, PartTargets(file, parts), steps).Some?
    ensures LookupTargets(f, w, PartTargets(file, parts), steps, seen).Outs?
    ensures var rs := LookupTargets(f, w, PartTargets(file, parts), steps, seen).answers;
            var answers := UnguardedTargets(f, w, PartTargets(file, parts), steps).value.answers;
            && (Combine(rs) == Combine(answers) || Combine(rs) == Unknown)
            && (Agree(rs) == Agree(answers) || Agree(rs) == Unknown)
    decreases f, 2
  {
    var targets := PartTargets(file, parts);
    TargetsDegrade(f, w, targets, steps, seen);
    CombineDegrades(LookupTargets(f, w, targets, steps, seen).answers,
                    UnguardedTargets(f, w, targets, steps).value.answers);
  }

  lemma TypeDegrades(f: nat, w: World, file: string, ty: Type, steps: seq<Step>, seen: set<Key>)
    requires steps != [] && UnguardedType(f, w, file, ty, steps).Some?
    ensures Degraded(LookupType(f, w, file, ty, steps, seen), UnguardedType(f, w, file, ty, steps).value.answer)
    decreases f, 3
  {
    match ty
    case TypeLiteral(members) =>
      if steps[0].Member? && FirstProp(members, steps[0].name).Some? {
        PropDegrades(f, w, file, members[FirstProp(members, steps[0].name).value], steps, seen);
      }
    case Parenthesized(inner) => GuardOnlyDegrades(f, w, file, TypeNode(inner), steps, seen);
    case Operator(inner) => GuardOnlyDegrades(f, w, file, TypeNode(inner), steps, seen);
    case Intersection(parts) => PartsDegrade(f, w, file, parts, steps, seen);
    case Union(parts) => PartsDegrade(f, w, file, parts, steps, seen);
    case ArrayOf(element) =>
      if steps[0].Element? { GuardOnlyDegrades(f, w, file, TypeNode(element), steps[1..], seen); }
    case Indexed(obj, key) =>
      if key.Some? { GuardOnlyDegrades(f, w, file, TypeNode(obj), [Member(key.value)] + steps, seen); }
    case Ref(head, qualified, args) =>
      if head in PASSTHROUGH && args != [] {
        GuardOnlyDegrades(f, w, file, TypeNode(args[0]), steps, seen);
      } else if head in ARRAYS && args != [] {
        if steps[0].Element? { GuardOnlyDegrades(f, w, file, TypeNode(args[0]), steps[1..], seen); }
      } else if !qualified && Resolve(w, file, head).Some? {
        var id := Resolve(w, file, head).value;
        GuardOnlyDegrades(f, w, id.file, DeclNode(id), steps, seen);
      }
    case OtherType =>
  }

  // Where the guard changes nothing.

  function Elements(met: seq<Key>): set<Key> {
    set key | key in met
  }

  /** No key twice, and none already in `seen`. */
  ghost predicate Fresh(met: seq<Key>, seen: set<Key>) {
    && (forall i, j :: 0 <= i < j < |met| ==> met[i] != met[j])
    && (forall key :: key in met ==> key !in seen)
  }

  lemma FreshSplit(a: seq<Key>, b: seq<Key>, seen: set<Key>)
    requires Fresh(a + b, seen)
    ensures Fresh(a, seen) && Fresh(b, seen + Elements(a))
    ensures seen + Elements(a + b) == seen + Elements(a) + Elements(b)
  {
    var met := a + b;
    assert forall i :: 0 <= i < |a| ==> met[i] == a[i];
    assert forall i :: 0 <= i < |b| ==> met[|a| + i] == b[i];
    forall key | key in b
      ensures key !in a
    {
      var i :| 0 <= i < |b| && b[i] == key;
      assert met[|a| + i] == key;
    }
  }

  /** The guarded walk is the unguarded one, and leaves in `seen` what that one met. */
  predicate Unchanged(r: Outcome, free: Walked, seen: set<Key>) {
    r == Out(free.answer, seen + Elements(free.met))
  }

  lemma NothingMet(seen: set<Key>)
    ensures seen + Elements([]) == seen
  {
  }

  /** If the walk without the guard meets no declaration twice with the same number of steps to go, and
      none that is in `seen` already, the guard changes nothing. */
  lemma {:induction false} GuardChangesNothing(f: nat, w: World, file: string, node: Node, steps: seq<Step>,
          seen: set<Key>)
    requires Unguarded(f, w, file, node, steps).Some?
    requires Fresh(Unguarded(f, w, file, node, steps).value.met, seen)
    ensures Unchanged(Lookup(f, w, file, node, steps, seen), Unguarded(f, w, file, node, steps).value, seen)
    decreases f, 0
  {
    hide Fresh, Elements;
    NothingMet(seen);
    if steps != [] {
      if Guarded(w, node) {
        DeclUnchanged(f, w, file, node, steps, seen);
      } else if node.TypeNode? {
        TypeUnchanged(f - 1, w, file, node.ty, steps, seen);
      }
    }
  }

  lemma DeclUnchanged(f: nat, w: World, file: string, node: Node, steps: seq<Step>, seen: set<Key>)
    requires steps != [] && Guarded(w, node) && Unguarded(f, w, file, node, steps).Some?
    requires Fresh(Unguarded(f, w, file, node, steps).value.met, seen)
    ensures Unchanged(Lookup(f, w, file, node, steps, seen), Unguarded(f, w, file, node, steps).value, seen)
    decreases if f > 0 then f - 1 else 0, 4
  {
    var key := (node.id, |steps|);
    var below := if w.decls[node.id].Interface? then UnguardedInterface(f - 1, w, file, node.id, steps)
                 else Unguarded(f - 1, w, file, TypeNode(w.decls[node.id].body), steps);
    FreshSplit([key], below.value.met, seen);
    assert Elements([key]) == {key};
    assert key in [key] + below.value.met;
    hide Elements;
    if w.decls[node.id].Interface? {
      InterfaceUnchanged(f - 1, w, file, node.id, steps, seen + {key});
    } else {
      GuardChangesNothing(f - 1, w, file, TypeNode(w.decls[node.id].body), steps, seen + {key});
    }
  }

  lemma PropUnchanged(f: nat, w: World, file: string, prop: Prop, steps: seq<Step>, seen: set<Key>)
    requires steps != [] && prop.Prop? && UnguardedProp(f, w, file, prop, steps).Some?
    requires Fresh(UnguardedProp(f, w, file, prop, steps).value.met, seen)
    ensures Unchanged(LookupProp(f, w, file, prop, steps, seen), UnguardedProp(f, w, file, prop, steps).value, seen)
    decreases f, 1
  {
    hide Fresh, Elements;
    NothingMet(seen);
    if |steps| > 1 && prop.ty.Some? {
      GuardChangesNothing(f, w, file, TypeNode(prop.ty.value), steps[1..], seen);
    }
  }

  lemma {:induction false} TargetsUnchanged(f: nat, w: World, targets: seq<Target>, steps: seq<Step>, seen: set<Key>)
    requires UnguardedTargets(f, w, targets, steps).Some?
    requires Fresh(UnguardedTargets(f, w, targets, steps).value.met, seen)
    ensures var free := UnguardedTargets(f, w, targets, steps).value;
            LookupTargets(f, w, targets, steps, seen) == Outs(free.answers, seen + Elements(free.met))
    decreases f, 1, |targets|
  {
    hide Fresh, Elements;
    NothingMet(seen);
    if targets != [] {
      var n := |targets| - 1;
      var before := UnguardedTargets(f, w, targets[..n], steps).value;
      var last := UnguardedTarget(f, w, targets[n], steps).value;
      FreshSplit(before.met, last.met, seen);
      TargetsUnchanged(f, w, targets[..n], steps, seen);
      var s := seen + Elements(before.met);
      NothingMet(s);
      if targets[n].At? {
        GuardChangesNothing(f, w, targets[n].file, targets[n].node, steps, s);
      }
    }
  }

  lemma InterfaceUnchanged(f: nat, w: World, file: string, id: Id, steps: seq<Step>, seen: set<Key>)
    requires steps != [] && id in w.decls && w.decls[id].Interface?
    requires UnguardedInterface(f, w, file, id, steps).Some?
    requires Fresh(UnguardedInterface(f, w, file, id, steps).value.met, seen)
    ensures Unchanged(LookupInterface(f, w, file, id, steps, seen),
                      UnguardedInterface(f, w, file, id, steps).value, seen)
    decreases f, 2
  {
    hide Fresh, Elements;
    NothingMet(seen);
    var d := w.decls[id];
    if steps[0].Member? {
      match FirstProp(d.members, steps[0].name)
      case Some(i) => PropUnchanged(f, w, file, d.members[i], steps, seen);
      case None => TargetsUnchanged(f, w, BaseTargets(w, file, d.bases), steps, seen);
    }
  }

  lemma TypeUnchanged(f: nat, w: World, file: string, ty: Type, steps: seq<Step>, seen: set<Key>)
    requires steps != [] && UnguardedType(f, w, file, ty, steps).Some?
    requires Fresh(UnguardedType(f, w, file, ty, steps).value.met, seen)
    ensures Unchanged(LookupType(f, w, file, ty, steps, seen), UnguardedType(f, w, file, ty, steps).value, seen)
    decreases f, 3
  {
    hide Fresh, Elements;
    NothingMet(seen);
    match ty
    case TypeLiteral(members) =>
      if steps[0].Member? && FirstProp(members, steps[0].name).Some? {
        PropUnchanged(f, w, file, members[FirstProp(members, steps[0].name).value], steps, seen);
      }
    case Parenthesized(inner) => GuardChangesNothing(f, w, file, TypeNode(inner), steps, seen);
    case Operator(inner) => GuardChangesNothing(f, w, file, TypeNode(inner), steps, seen);
    case Intersection(parts) => TargetsUnchanged(f, w, PartTargets(file, parts), steps, seen);
    case Union(parts) => TargetsUnchanged(f, w, PartTargets(file, parts), steps, seen);
    case ArrayOf(element) =>
      if steps[0].Element? { GuardChangesNothing(f, w, file, TypeNode(element), steps[1..], seen); }
    case Indexed(obj, key) =>
      if key.Some? { GuardChangesNothing(f, w, file, TypeNode(obj), [Member(key.value)] + steps, seen); }
    case Ref(head, qualified, args) =>
      if head in PASSTHROUGH && args != [] {
        GuardChangesNothing(f, w, file, TypeNode(args[0]), steps, seen);
      } else if head in ARRAYS && args != [] {
        if steps[0].Element? { GuardChangesNothing(f, w, file, TypeNode(args[0]), steps[1..], seen); }
      } else if !qualified && Resolve(w, file, head).Some? {
        var id := Resolve(w, file, head).value;
        GuardChangesNothing(f, w, id.file, DeclNode(id), steps, seen);
      }
    case OtherType =>
  }
}
