/** When `lookupPath` of `scripts/gen-config-catalog.ts` ends, and four small graphs that show what its
    answers can and cannot be. */
module TypeTermination {
  import Counting
  import opened Numbers
  import opened Options
  import opened TypePaths

  /** The type a reference hands the walk on to instead of its own name, if any. */
  predicate IntoArgument(head: string, args: seq<Type>) {
    (head in PASSTHROUGH || head in ARRAYS) && args != []
  }

  /** Every reference in the type, as `file` writes it, goes to a declaration ranked below `ceiling`;
      inside the object of an indexed access, one lower still. `inside` says `ty` already is. */
  predicate Fits(w: World, rank: Id -> nat, file: string, ty: Type, ceiling: nat, inside: bool)
    decreases ty
  {
    match ty
    case TypeLiteral(members) =>
      forall m :: m in members ==> m.Prop? && m.ty.Some? ==> Fits(w, rank, file, m.ty.value, ceiling, inside)
    case Parenthesized(inner) => Fits(w, rank, file, inner, ceiling, inside)
    case Operator(inner) => Fits(w, rank, file, inner, ceiling, inside)
    case Intersection(parts) => forall p :: p in parts ==> Fits(w, rank, file, p, ceiling, inside)
    case Union(parts) => forall p :: p in parts ==> Fits(w, rank, file, p, ceiling, inside)
    case ArrayOf(element) => Fits(w, rank, file, element, ceiling, inside)
    case Indexed(obj, key) =>
      key.Some? ==> if inside then Fits(w, rank, file, obj, ceiling, true)
                    else ceiling > 0 && Fits(w, rank, file, obj, ceiling - 1, true)
    case Ref(head, qualified, args) =>
      if IntoArgument(head, args) then Fits(w, rank, file, args[0], ceiling, inside)
      else qualified || Resolve(w, file, head).None? || rank(Resolve(w, file, head).value) < ceiling
    case OtherType => true
  }

  predicate FitsBase(w: World, rank: Id -> nat, file: string, base: Option<string>, ceiling: nat) {
    base.None? || Resolve(w, file, base.value).None? || rank(Resolve(w, file, base.value).value) < ceiling
  }

  /** What a declaration refers to ranks no higher than itself, and lower through an indexed access. */
  predicate FitsDecl(w: World, rank: Id -> nat, file: string, id: Id)
    requires id in w.decls
  {
    match w.decls[id]
    case Interface(members, bases) =>
      && Fits(w, rank, file, TypeLiteral(members), rank(id) + 1, false)
      && forall b :: b in bases ==> FitsBase(w, rank, file, b, rank(id) + 1)
    case Alias(body) => Fits(w, rank, file, body, rank(id) + 1, false)
    case Enum => true
  }

  predicate RankedWorld(w: World, rank: Id -> nat) {
    forall id :: id in w.decls ==> FitsDecl(w, rank, id.file, id)
  }

  // How far indexed accesses can lengthen the path.

  /** Indexed accesses nest no deeper than `depth`. */
  predicate Nests(ty: Type, depth: nat)
    decreases ty
  {
    match ty
    case TypeLiteral(members) => forall m :: m in members ==> m.Prop? && m.ty.Some? ==> Nests(m.ty.value, depth)
    case Parenthesized(inner) => Nests(inner, depth)
    case Operator(inner) => Nests(inner, depth)
    case Intersection(parts) => forall p :: p in parts ==> Nests(p, depth)
    case Union(parts) => forall p :: p in parts ==> Nests(p, depth)
    case ArrayOf(element) => Nests(element, depth)
    case Indexed(obj, _) => depth > 0 && Nests(obj, depth - 1)
    case Ref(_, _, args) => args != [] ==> Nests(args[0], depth)
    case OtherType => true
  }

  predicate NestsDecl(d: Decl, depth: nat) {
    match d
    case Interface(members, _) => Nests(TypeLiteral(members), depth)
    case Alias(body) => Nests(body, depth)
    case Enum => true
  }

  lemma {:induction ty} DeeperNests(ty: Type, depth: nat, more: nat)
    requires Nests(ty, depth) && depth <= more
    ensures Nests(ty, more)
    decreases ty
  {
    match ty
    case TypeLiteral(members) =>
      forall m | m in members && m.Prop? && m.ty.Some?
        ensures Nests(m.ty.value, more)
      {
        DeeperNests(m.ty.value, depth, more);
      }
    case Parenthesized(inner) => DeeperNests(inner, depth, more);
    case Operator(inner) => DeeperNests(inner, depth, more);
    case Intersection(parts) =>
      forall p | p in parts ensures Nests(p, more) { DeeperNests(p, depth, more); }
    case Union(parts) =>
      forall p | p in parts ensures Nests(p, more) { DeeperNests(p, depth, more); }
    case ArrayOf(element) => DeeperNests(element, depth, more);
    case Indexed(obj, _) => DeeperNests(obj, depth - 1, more - 1);
    case Ref(_, _, args) => if args != [] { DeeperNests(args[0], depth, more); }
    case OtherType =>
  }

  lemma {:induction false} SomeNesting(ty: Type) returns (depth: nat)
    ensures Nests(ty, depth)
    decreases ty, 1
  {
    depth := 0;
    match ty
    case TypeLiteral(members) =>
      depth := MembersNesting(ty, members, |members|);
      assert members[..|members|] == members;
    case Parenthesized(inner) => depth := SomeNesting(inner);
    case Operator(inner) => depth := SomeNesting(inner);
    case Intersection(parts) => depth := PartsNesting(ty, parts, |parts|); assert parts[..|parts|] == parts;
    case Union(parts) => depth := PartsNesting(ty, parts, |parts|); assert parts[..|parts|] == parts;
    case ArrayOf(element) => depth := SomeNesting(element);
    case Indexed(obj, _) => depth := SomeNesting(obj); depth := depth + 1;
    case Ref(_, _, args) => if args != [] { depth := SomeNesting(args[0]); }
    case OtherType =>
  }

  lemma {:induction false} MembersNesting(ty: Type, members: seq<Prop>, n: nat) returns (depth: nat)
    requires ty == TypeLiteral(members) && n <= |members|
    ensures forall m :: m in members[..n] && m.Prop? && m.ty.Some? ==> Nests(m.ty.value, depth)
    decreases ty, 0, n
  {
    depth := 0;
    if n > 0 {
      var before := MembersNesting(ty, members, n - 1);
      var last := members[n - 1];
      assert last in members;
      var own := 0;
      if last.Prop? && last.ty.Some? {
        own := SomeNesting(last.ty.value);
      }
      depth := Max(before, own);
      forall m | m in members[..n] && m.Prop? && m.ty.Some?
        ensures Nests(m.ty.value, depth)
      {
        if m == last { DeeperNests(m.ty.value, own, depth); } else { DeeperNests(m.ty.value, before, depth); }
      }
    }
  }

  lemma {:induction false} PartsNesting(ty: Type, parts: seq<Type>, n: nat) returns (depth: nat)
    requires (ty.Intersection? || ty.Union?) && ty.parts == parts && n <= |parts|
    ensures forall p :: p in parts[..n] ==> Nests(p, depth)
    decreases ty, 0, n
  {
    depth := 0;
    if n > 0 {
      var before := PartsNesting(ty, parts, n - 1);
      assert parts[n - 1] in parts;
      var own := SomeNesting(parts[n - 1]);
      depth := Max(before, own);
      forall p | p in parts[..n]
        ensures Nests(p, depth)
      {
        if p == parts[n - 1] { DeeperNests(p, own, depth); } else { DeeperNests(p, before, depth); }
      }
    }
  }

  lemma {:induction false} WorldNesting(w: World, ids: set<Id>) returns (depth: nat)
    requires ids <= w.decls.Keys
    ensures forall id :: id in ids ==> NestsDecl(w.decls[id], depth)
    decreases ids
  {
    depth := 0;
    if ids != {} {
      var id :| id in ids;
      var before := WorldNesting(w, ids - {id});
      var own := 0;
      match w.decls[id] {
        case Interface(members, _) => own := SomeNesting(TypeLiteral(members));
        case Alias(body) => own := SomeNesting(body);
        case Enum =>
      }
      depth := Max(before, own);
      forall other | other in ids
        ensures NestsDecl(w.decls[other], depth)
      {
        DeeperDecl(w.decls[other], if other == id then own else before, depth);
      }
    }
  }

  lemma DeeperDecl(d: Decl, depth: nat, more: nat)
    requires NestsDecl(d, depth) && depth <= more
    ensures NestsDecl(d, more)
  {
    match d
    case Interface(members, _) => DeeperNests(TypeLiteral(members), depth, more);
    case Alias(body) => DeeperNests(body, depth, more);
    case Enum =>
  }

  /** The keys `seen` can hold: declarations paired with numbers of steps. */
  ghost function Keys(w: World, most: nat): set<Key> {
    set id, n: nat | id in w.decls && n <= most :: (id, n)
  }

  lemma FewerKeys(w: World, most: nat, seen: set<Key>, more: set<Key>)
    requires seen <= more
    ensures |Keys(w, most) - more| <= |Keys(w, most) - seen|
    ensures forall key :: key in Keys(w, most) && key !in seen && key in more ==>
        |Keys(w, most) - more| < |Keys(w, most) - seen|
  {
    var a, b := Keys(w, most) - more, Keys(w, most) - seen;
    assert b == a + (b - a);
    forall key | key in Keys(w, most) && key !in seen && key in more
      ensures |a| < |b|
    {
      assert b - a == {key} + (b - a - {key});
    }
  }

  /** `n` times `depth`: the steps that declarations of `n` ranks may add. */
  function Added(n: nat, depth: nat): nat {
    if n == 0 then 0 else Added(n - 1, depth) + depth
  }

  lemma {:induction false} AddedGrows(n: nat, m: nat, depth: nat)
    requires n <= m
    ensures Added(n, depth) <= Added(m, depth)
  {
    if n < m {
      AddedGrows(n, m - 1, depth);
    }
  }

  /** The ranks of declarations, how deep indexed accesses nest in them, and a bound on path lengths. */
  datatype Bounds = Bounds(rank: Id -> nat, depth: nat, most: nat)

  /** Where in a declaration a type stands: what its references rank below, and how deep it may nest. */
  datatype Spot = Spot(ceiling: nat, inside: bool, depth: nat)

  predicate NestedWorld(w: World, depth: nat) {
    forall id :: id in w.decls ==> NestsDecl(w.decls[id], depth)
  }

  predicate Bounded(w: World, b: Bounds) {
    RankedWorld(w, b.rank) && NestedWorld(w, b.depth)
  }

  /** A path of `n` steps never grows past the bound from here on. */
  predicate TypeRoom(w: World, b: Bounds, file: string, ty: Type, at: Spot, n: nat) {
    && Fits(w, b.rank, file, ty, at.ceiling, at.inside) && Nests(ty, at.depth)
    && (if at.inside then n + at.depth + Added(at.ceiling, b.depth) <= b.most
        else at.depth == b.depth && n + Added(at.ceiling, b.depth) <= b.most)
  }

  predicate DeclRoom(w: World, b: Bounds, file: string, id: Id, n: nat) {
    id in w.decls ==> FitsDecl(w, b.rank, file, id) && n + Added(b.rank(id) + 1, b.depth) <= b.most
  }

  predicate Room(w: World, b: Bounds, file: string, node: Node, at: Spot, n: nat) {
    match node
    case DeclNode(id) => DeclRoom(w, b, file, id, n)
    case TypeNode(ty) => TypeRoom(w, b, file, ty, at, n)
  }

  lemma RefRoom(w: World, b: Bounds, id: Id, ceiling: nat, n: nat)
    requires Bounded(w, b) && b.rank(id) < ceiling && n + Added(ceiling, b.depth) <= b.most
    ensures DeclRoom(w, b, id.file, id, n)
  {
    AddedGrows(b.rank(id) + 1, ceiling, b.depth);
  }

  lemma ObjectRoom(w: World, b: Bounds, file: string, obj: Type, key: Option<string>, at: Spot, n: nat)
    returns (deeper: Spot)
    requires key.Some? && TypeRoom(w, b, file, Indexed(obj, key), at, n)
    ensures TypeRoom(w, b, file, obj, deeper, n + 1)
  {
    deeper := Spot(if at.inside then at.ceiling else at.ceiling - 1, true, at.depth - 1);
  }

  /** What the walk leaves in `seen`: what was there, and keys within the bound. */
  ghost predicate Grown(w: World, b: Bounds, seen: set<Key>, after: set<Key>) {
    seen <= after <= seen + Keys(w, b.most)
  }

  /** In a ranked world the walk ends. */
  lemma {:induction false} RankedTerminates(w: World, b: Bounds, file: string, node: Node, at: Spot, steps: seq<Step>,
          seen: set<Key>)
    returns (f: nat)
    requires Bounded(w, b) && Room(w, b, file, node, at, |steps|)
    ensures Lookup(f, w, file, node, steps, seen).Out?
    ensures Grown(w, b, seen, Lookup(f, w, file, node, steps, seen).seen)
    decreases |Keys(w, b.most) - seen|, if node.TypeNode? then 1 else 0, if node.TypeNode? then node.ty else OtherType
  {
    hide Fits, Nests, Keys;
    f := 1;
    if steps != [] {
      if Guarded(w, node) {
        var key := (node.id, |steps|);
        if key !in seen {
          f := DeclTerminates(w, b, file, node.id, steps, seen);
        }
      } else if node.TypeNode? {
        var g := TypeTerminates(w, b, file, node.ty, at, steps, seen);
        f := g + 1;
      }
    }
  }

  lemma DeclTerminates(w: World, b: Bounds, file: string, id: Id, steps: seq<Step>, seen: set<Key>) returns (f: nat)
    requires Bounded(w, b) && DeclRoom(w, b, file, id, |steps|) && steps != []
    requires Guarded(w, DeclNode(id)) && (id, |steps|) !in seen
    ensures Lookup(f, w, file, DeclNode(id), steps, seen).Out?
    ensures Grown(w, b, seen, Lookup(f, w, file, DeclNode(id), steps, seen).seen)
    decreases |Keys(w, b.most) - seen|, 0, OtherType, 0
  {
    hide Fits, Nests, LookupInterface;
    var key := (id, |steps|);
    var seen' := seen + {key};
    FewerKeys(w, b.most, seen, seen');
    assert key in Keys(w, b.most);
    var d := w.decls[id];
    if d.Interface? {
      var g := InterfaceTerminates(w, b, file, id, steps, seen');
      f := g + 1;
    } else {
      var g := RankedTerminates(w, b, file, TypeNode(d.body), Spot(b.rank(id) + 1, false, b.depth), steps, seen');
      f := g + 1;
    }
  }

  lemma InterfaceTerminates(w: World, b: Bounds, file: string, id: Id, steps: seq<Step>, seen: set<Key>)
    returns (f: nat)
    requires Bounded(w, b) && DeclRoom(w, b, file, id, |steps|) && steps != [] && id in w.decls
    requires w.decls[id].Interface?
    ensures LookupInterface(f, w, file, id, steps, seen).Out?
    ensures Grown(w, b, seen, LookupInterface(f, w, file, id, steps, seen).seen)
    decreases |Keys(w, b.most) - seen|, 3
  {
    hide Keys;
    var d := w.decls[id];
    f := 0;
    if steps[0].Member? {
      match FirstProp(d.members, steps[0].name)
      case Some(i) =>
        if |steps| > 1 && d.members[i].ty.Some? {
          assert d.members[i] in d.members;
          var ty := d.members[i].ty.value;
          assert Nests(TypeLiteral(d.members), b.depth);
          f := RankedTerminates(w, b, file, TypeNode(ty), Spot(b.rank(id) + 1, false, b.depth), steps[1..], seen);
        }
      case None =>
        f := BasesTerminate(w, b, file, d.bases, b.rank(id) + 1, steps, seen);
    }
  }

  lemma {:induction false} BasesTerminate(w: World, b: Bounds, file: string, bases: seq<Option<string>>, ceiling: nat,
          steps: seq<Step>, seen: set<Key>)
    returns (f: nat)
    requires Bounded(w, b) && |steps| + Added(ceiling, b.depth) <= b.most
    requires forall base :: base in bases ==> FitsBase(w, b.rank, file, base, ceiling)
    ensures LookupTargets(f, w, BaseTargets(w, file, bases), steps, seen).Outs?
    ensures Grown(w, b, seen, LookupTargets(f, w, BaseTargets(w, file, bases), steps, seen).seen)
    decreases |Keys(w, b.most) - seen|, 2, OtherType, |bases|
  {
    hide Keys;
    f := 0;
    if bases != [] {
      var n := |bases| - 1;
      var g := BasesTerminate(w, b, file, bases[..n], ceiling, steps, seen);
      var targets := BaseTargets(w, file, bases);
      assert targets[..n] == BaseTargets(w, file, bases[..n]);
      assert bases[n] in bases;
      if targets[n].At? {
        RefRoom(w, b, targets[n].node.id, ceiling, |steps|);
      }
      f := NextTerminates(w, b, targets, steps, seen, g);
    }
  }

  lemma NextTerminates(w: World, b: Bounds, targets: seq<Target>, steps: seq<Step>, seen: set<Key>, g: nat)
    returns (f: nat)
    requires Bounded(w, b) && targets != []
    requires var last := targets[|targets| - 1];
             last.At? ==> last.node.DeclNode? && DeclRoom(w, b, last.file, last.node.id, |steps|)
    requires LookupTargets(g, w, targets[..|targets| - 1], steps, seen).Outs?
    requires Grown(w, b, seen, LookupTargets(g, w, targets[..|targets| - 1], steps, seen).seen)
    ensures LookupTargets(f, w, targets, steps, seen).Outs?
    ensures Grown(w, b, seen, LookupTargets(f, w, targets, steps, seen).seen)
    decreases |Keys(w, b.most) - seen|, 1
  {
    var n := |targets| - 1;
    var s := LookupTargets(g, w, targets[..n], steps, seen).seen;
    FewerKeys(w, b.most, seen, s);
    hide Keys;
    var h := 0;
    if targets[n].At? {
      h := RankedTerminates(w, b, targets[n].file, targets[n].node, Spot(0, false, 0), steps, s);
    }
    f := JoinTargets(w, b, targets, steps, seen, g, h);
  }

  /** Fuel that suffices for all but the last target and for the last one suffices together. */
  lemma JoinTargets(w: World, b: Bounds, targets: seq<Target>, steps: seq<Step>, seen: set<Key>, g: nat, h: nat)
    returns (f: nat)
    requires targets != []
    requires LookupTargets(g, w, targets[..|targets| - 1], steps, seen).Outs?
    requires var s := LookupTargets(g, w, targets[..|targets| - 1], steps, seen).seen;
      var last := targets[|targets| - 1];
      Grown(w, b, seen, s)
      && (last.At? ==> Lookup(h, w, last.file, last.node, steps, s).Out?)
      && (last.At? ==> Grown(w, b, s, Lookup(h, w, last.file, last.node, steps, s).seen))
    ensures LookupTargets(f, w, targets, steps, seen).Outs?
    ensures Grown(w, b, seen, LookupTargets(f, w, targets, steps, seen).seen)
  {
    hide Keys;
    var n := |targets| - 1;
    var s := LookupTargets(g, w, targets[..n], steps, seen).seen;
    f := if g < h then h else g;
    MoreFuelTargets(g, f, w, targets[..n], steps, seen);
    if targets[n].At? {
      MoreFuel(h, f, w, targets[n].file, targets[n].node, steps, s);
    }
  }

  lemma TypeTerminates(w: World, b: Bounds, file: string, ty: Type, at: Spot, steps: seq<Step>, seen: set<Key>)
    returns (f: nat)
    requires Bounded(w, b) && TypeRoom(w, b, file, ty, at, |steps|) && steps != []
    ensures LookupType(f, w, file, ty, steps, seen).Out?
    ensures Grown(w, b, seen, LookupType(f, w, file, ty, steps, seen).seen)
    decreases |Keys(w, b.most) - seen|, 1, ty, 1
  {
    hide Keys;
    f := 0;
    match ty {
    case TypeLiteral(members) =>
      if steps[0].Member? && |steps| > 1 {
        match FirstProp(members, steps[0].name) {
          case Some(i) =>
            assert members[i] in members;
            if members[i].ty.Some? {
              f := RankedTerminates(w, b, file, TypeNode(members[i].ty.value), at, steps[1..], seen);
            }
          case None =>
        }
      }
    case Parenthesized(inner) => f := RankedTerminates(w, b, file, TypeNode(inner), at, steps, seen);
    case Operator(inner) => f := RankedTerminates(w, b, file, TypeNode(inner), at, steps, seen);
    case Intersection(parts) => f := PartsTerminate(w, b, file, ty, parts, |parts|, at, steps, seen);
      assert parts[..|parts|] == parts;
    case Union(parts) => f := PartsTerminate(w, b, file, ty, parts, |parts|, at, steps, seen);
      assert parts[..|parts|] == parts;
    case ArrayOf(element) =>
      if steps[0].Element? { f := RankedTerminates(w, b, file, TypeNode(element), at, steps[1..], seen); }
    case Indexed(obj, key) =>
      if key.Some? {
        var deeper := ObjectRoom(w, b, file, obj, key, at, |steps|);
        f := RankedTerminates(w, b, file, TypeNode(obj), deeper, [Member(key.value)] + steps, seen);
      }
    case Ref(head, qualified, args) => f := RefTerminates(w, b, file, head, qualified, args, at, steps, seen);
    case OtherType =>
    }
  }

  lemma RefTerminates(w: World, b: Bounds, file: string, head: string, qualified: bool, args: seq<Type>, at: Spot,
          steps: seq<Step>, seen: set<Key>)
    returns (f: nat)
    requires Bounded(w, b) && TypeRoom(w, b, file, Ref(head, qualified, args), at, |steps|) && steps != []
    ensures LookupType(f, w, file, Ref(head, qualified, args), steps, seen).Out?
    ensures Grown(w, b, seen, LookupType(f, w, file, Ref(head, qualified, args), steps, seen).seen)
    decreases |Keys(w, b.most) - seen|, 1, Ref(head, qualified, args), 0
  {
    hide Keys;
    f := 0;
    if IntoArgument(head, args) {
      assert args[0] in args;
      if head in PASSTHROUGH {
        f := RankedTerminates(w, b, file, TypeNode(args[0]), at, steps, seen);
      } else if steps[0].Element? {
        f := RankedTerminates(w, b, file, TypeNode(args[0]), at, steps[1..], seen);
      }
    } else if !qualified && Resolve(w, file, head).Some? {
      var id := Resolve(w, file, head).value;
      RefRoom(w, b, id, at.ceiling, |steps|);
      f := RankedTerminates(w, b, id.file, DeclNode(id), at, steps, seen);
    }
  }

  lemma PartRoom(w: World, b: Bounds, file: string, ty: Type, i: nat, at: Spot, n: nat)
    requires (ty.Intersection? || ty.Union?) && i < |ty.parts| && TypeRoom(w, b, file, ty, at, n)
    ensures TypeRoom(w, b, file, ty.parts[i], at, n)
  {
    assert ty.parts[i] in ty.parts;
  }

  lemma NoParts(w: World, b: Bounds, file: string, parts: seq<Type>, steps: seq<Step>, seen: set<Key>)
    ensures LookupTargets(0, w, PartTargets(file, parts[..0]), steps, seen).Outs?
    ensures Grown(w, b, seen, LookupTargets(0, w, PartTargets(file, parts[..0]), steps, seen).seen)
  {
  }

  lemma {:induction false} PartsTerminate(w: World, b: Bounds, file: string, ty: Type, parts: seq<Type>, n: nat,
          at: Spot, steps: seq<Step>, seen: set<Key>)
    returns (f: nat)
    requires Bounded(w, b) && n <= |parts| && TypeRoom(w, b, file, ty, at, |steps|)
    requires (ty.Intersection? || ty.Union?) && ty.parts == parts
    ensures LookupTargets(f, w, PartTargets(file, parts[..n]), steps, seen).Outs?
    ensures Grown(w, b, seen, LookupTargets(f, w, PartTargets(file, parts[..n]), steps, seen).seen)
    decreases |Keys(w, b.most) - seen|, 1, ty, 0, n
  {
    hide Keys, LookupTargets, Lookup, Fits, Nests, TypeRoom, Bounded;
    f := 0;
    if n == 0 {
      NoParts(w, b, file, parts, steps, seen);
    } else {
      var g := PartsTerminate(w, b, file, ty, parts, n - 1, at, steps, seen);
      var targets := PartTargets(file, parts[..n]);
      assert targets[..n - 1] == PartTargets(file, parts[..n - 1]);
      var s := LookupTargets(g, w, targets[..n - 1], steps, seen).seen;
      FewerKeys(w, b.most, seen, s);
      PartRoom(w, b, file, ty, n - 1, at, |steps|);
      var h := RankedTerminates(w, b, file, TypeNode(parts[n - 1]), at, steps, s);
      f := JoinTargets(w, b, targets, steps, seen, g, h);
    }
  }

  lemma {:induction false} AddedIsProduct(n: nat, depth: nat)
    ensures Added(n, depth) == n * depth
  {
    if n > 0 {
      AddedIsProduct(n - 1, depth);
      OneMore(n - 1, depth);
    }
  }

  /** Where ranks of declarations fall through every indexed access and rise nowhere, the walk ends:
      it visits each declaration at most once for each number of steps, and the path never grows by more
      than the nesting of indexed accesses for each rank. */
  lemma Terminates(w: World, rank: Id -> nat, depth: nat, id: Id, steps: seq<Step>, seen: set<Key>)
    returns (f: nat, most: nat)
    requires RankedWorld(w, rank) && NestedWorld(w, depth)
    ensures most == |steps| + (rank(id) + 1) * depth
    ensures Lookup(f, w, id.file, DeclNode(id), steps, seen).Out?
    ensures seen <= Lookup(f, w, id.file, DeclNode(id), steps, seen).seen <= seen + Keys(w, most)
    ensures |Lookup(f, w, id.file, DeclNode(id), steps, seen).seen - seen| <= |w.decls| * (most + 1)
  {
    hide RankedWorld, NestedWorld, Lookup, Keys;
    most := |steps| + Added(rank(id) + 1, depth);
    f := TerminatesWithin(w, Bounds(rank, depth, most), id, steps, seen);
    GrownBy(w, seen, Lookup(f, w, id.file, DeclNode(id), steps, seen).seen, most);
    AddedIsProduct(rank(id) + 1, depth);
  }

  lemma TerminatesWithin(w: World, b: Bounds, id: Id, steps: seq<Step>, seen: set<Key>) returns (f: nat)
    requires Bounded(w, b) && b.most == |steps| + Added(b.rank(id) + 1, b.depth)
    ensures Lookup(f, w, id.file, DeclNode(id), steps, seen).Out?
    ensures Grown(w, b, seen, Lookup(f, w, id.file, DeclNode(id), steps, seen).seen)
  {
    hide Bounded, DeclRoom, Lookup, Keys, Added;
    RefRoom(w, b, id, b.rank(id) + 1, |steps|);
    f := RankedTerminates(w, b, id.file, DeclNode(id), Spot(0, false, 0), steps, seen);
  }

  /** Every world has such a nesting. */
  lemma SomeDepth(w: World) returns (depth: nat)
    ensures NestedWorld(w, depth)
  {
    depth := WorldNesting(w, w.decls.Keys);
  }

  /** No indexed access anywhere in the type. */
  predicate Plain(ty: Type) {
    Nests(ty, 0)
  }

  predicate PlainWorld(w: World) {
    NestedWorld(w, 0)
  }

  /** The ranking in which all declarations are equal. */
  const FLAT: Id -> nat := (id: Id) => 0

  lemma {:induction ty} PlainFits(w: World, file: string, ty: Type)
    requires Plain(ty)
    ensures Fits(w, FLAT, file, ty, 1, false)
    decreases ty
  {
    match ty
    case TypeLiteral(members) =>
      forall m | m in members && m.Prop? && m.ty.Some?
        ensures Fits(w, FLAT, file, m.ty.value, 1, false)
      {
        PlainFits(w, file, m.ty.value);
      }
    case Parenthesized(inner) => PlainFits(w, file, inner);
    case Operator(inner) => PlainFits(w, file, inner);
    case Intersection(parts) =>
      forall p | p in parts ensures Fits(w, FLAT, file, p, 1, false) { PlainFits(w, file, p); }
    case Union(parts) =>
      forall p | p in parts ensures Fits(w, FLAT, file, p, 1, false) { PlainFits(w, file, p); }
    case ArrayOf(element) => PlainFits(w, file, element);
    case Indexed(_, _) =>
    case Ref(_, _, args) => if args != [] { PlainFits(w, file, args[0]); }
    case OtherType =>
  }

  /** Without indexed access the walk ends from every `seen`, and visits each declaration at most
      once for each number of steps to go. */
  lemma PlainTerminates(w: World, file: string, node: Node, steps: seq<Step>, seen: set<Key>) returns (f: nat)
    requires PlainWorld(w) && (node.TypeNode? ==> Plain(node.ty))
    ensures Lookup(f, w, file, node, steps, seen).Out?
    ensures seen <= Lookup(f, w, file, node, steps, seen).seen <= seen + Keys(w, |steps|)
    ensures |Lookup(f, w, file, node, steps, seen).seen - seen| <= |w.decls| * (|steps| + 1)
  {
    forall id, name | id in w.decls
      ensures FitsDecl(w, FLAT, name, id)
    {
      PlainDecl(w, name, id);
    }
    if node.TypeNode? {
      PlainFits(w, file, node.ty);
    }
    f := RankedTerminates(w, Bounds(FLAT, 0, |steps|), file, node, Spot(1, false, 0), steps, seen);
    GrownBy(w, seen, Lookup(f, w, file, node, steps, seen).seen, |steps|);
  }

  lemma PlainDecl(w: World, file: string, id: Id)
    requires PlainWorld(w) && id in w.decls
    ensures FitsDecl(w, FLAT, file, id)
  {
    match w.decls[id]
    case Interface(members, bases) => PlainFits(w, file, TypeLiteral(members));
    case Alias(body) => PlainFits(w, file, body);
    case Enum =>
  }

  /** How many keys there are: declarations times step counts. */
  lemma {:induction false} KeyCount(w: World, ids: set<Id>, most: nat)
    requires ids <= w.decls.Keys
    ensures |set id, n: nat | id in ids && n <= most :: (id, n)| == |ids| * (most + 1)
    decreases ids
  {
    var all := set id, n: nat | id in ids && n <= most :: (id, n);
    if ids != {} {
      var id :| id in ids;
      KeyCount(w, ids - {id}, most);
      var others := set i, n: nat | i in ids - {id} && n <= most :: (i, n);
      var own := set n: nat | n <= most :: (id, n);
      OwnKeys(id, most);
      assert all == others + own && others !! own;
      assert |ids - {id}| == |ids| - 1;
      OneMore(|ids| - 1, most + 1);
    } else {
      assert all == {};
    }
  }

  lemma OneMore(n: int, k: int)
    ensures n * k + k == (n + 1) * k
  {
  }

  /** So `seen` grows by no more than that. */
  lemma GrownBy(w: World, seen: set<Key>, after: set<Key>, most: nat)
    requires seen <= after <= seen + Keys(w, most)
    ensures |after - seen| <= |w.decls| * (most + 1)
  {
    KeyCount(w, w.decls.Keys, most);
    assert Keys(w, most) == set id, n: nat | id in w.decls.Keys && n <= most :: (id, n);
    assert after - seen <= Keys(w, most);
    Counting.SubsetSize(after - seen, Keys(w, most));
    assert |w.decls.Keys| == |w.decls|;
  }

  lemma {:induction false} OwnKeys(id: Id, most: nat)
    ensures |set n: nat | n <= most :: (id, n)| == most + 1
  {
    var all := set n: nat | n <= most :: (id, n);
    if most == 0 {
      assert all == {(id, 0)};
    } else {
      OwnKeys(id, most - 1);
      assert all == (set n: nat | n <= most - 1 :: (id, n)) + {(id, most)};
    }
  }

  // ---------------------------------------------------------------- concrete graphs

  const LOOPING := Id("a.ts", 0)

  /** `interface A { x: A['x']['x'] }` */
  const LOOPING_WORLD := World(
    map[LOOPING := Interface([Prop("x", "x", Some(Indexed(Indexed(Ref("A", false, []), Some("x")), Some("x"))))], [])],
    map[("a.ts", "A") := LOOPING])

  function Repeat(n: nat): seq<Step> {
    if n == 0 then [Member("y")] else [Member("x")] + Repeat(n - 1)
  }

  lemma {:induction false} RepeatLength(n: nat)
    ensures |Repeat(n)| == n + 1
  {
    if n > 0 {
      RepeatLength(n - 1);
    }
  }

  /** No ranking falls through an access that comes back to its own declaration. */
  lemma LoopingHasNoRank(rank: Id -> nat)
    ensures !RankedWorld(LOOPING_WORLD, rank)
  {
    var a := Ref("A", false, []);
    var prop := Prop("x", "x", Some(Indexed(Indexed(a, Some("x")), Some("x"))));
    assert LOOPING in LOOPING_WORLD.decls && LOOPING_WORLD.decls[LOOPING] == Interface([prop], []);
    assert Resolve(LOOPING_WORLD, "a.ts", "A") == Some(LOOPING);
    assert !IntoArgument("A", []);
    assert prop in [prop];
    var n := rank(LOOPING) + 1;
    assert !Fits(LOOPING_WORLD, rank, "a.ts", a, n - 1, true);
    assert !Fits(LOOPING_WORLD, rank, "a.ts", Indexed(a, Some("x")), n - 1, true);
    assert !Fits(LOOPING_WORLD, rank, "a.ts", prop.ty.value, n, false);
    assert !Fits(LOOPING_WORLD, rank, "a.ts", TypeLiteral([prop]), n, false);
  }

  /** With indexed access `seen` does not stop the walk: the step list grows with every round,
      so each visit has a new key and no amount of fuel is enough. */
  lemma {:induction false} IndexedAccessDiverges(f: nat, n: nat, seen: set<Key>)
    requires n >= 1 && forall m: nat :: m > n ==> (LOOPING, m) !in seen
    ensures Lookup(f, LOOPING_WORLD, "a.ts", DeclNode(LOOPING), Repeat(n), seen) == Running
    decreases f
  {
    RepeatLength(n);
    if f > 0 {
      var w := LOOPING_WORLD;
      var a := Ref("A", false, []);
      var once := Indexed(a, Some("x"));
      var seen' := seen + {(LOOPING, n + 1)};
      assert FirstProp(w.decls[LOOPING].members, "x") == Some(0);
      assert Repeat(n)[1..] == Repeat(n - 1);
      RepeatLength(n - 1);
      assert [Member("x")] + Repeat(n - 1) == Repeat(n);
      assert [Member("x")] + Repeat(n) == Repeat(n + 1);
      RepeatLength(n + 1);
      assert "A" !in PASSTHROUGH && "A" !in ARRAYS;
      assert Resolve(w, "a.ts", "A") == Some(LOOPING);
      assert Repeat(n - 1) != [] && Repeat(n) != [] && Repeat(n + 1) != [];
      if f >= 4 {
        IndexedAccessDiverges(f - 4, n + 1, seen');
        assert LookupType(f - 4, w, "a.ts", a, Repeat(n + 1), seen') == Running;
      }
      if f >= 3 {
        assert Lookup(f - 3, w, "a.ts", TypeNode(a), Repeat(n + 1), seen') == Running;
        assert LookupType(f - 3, w, "a.ts", once, Repeat(n), seen') == Running;
      }
      if f >= 2 {
        assert Lookup(f - 2, w, "a.ts", TypeNode(once), Repeat(n), seen') == Running;
        assert LookupType(f - 2, w, "a.ts", Indexed(once, Some("x")), Repeat(n - 1), seen') == Running;
      }
      assert Lookup(f - 1, w, "a.ts", TypeNode(Indexed(once, Some("x"))), Repeat(n - 1), seen') == Running;
      var prop := Prop("x", "x", Some(Indexed(once, Some("x"))));
      assert w.decls[LOOPING].members[0] == prop;
      assert LookupProp(f - 1, w, "a.ts", prop, Repeat(n), seen') == Running;
      assert LookupInterface(f - 1, w, "a.ts", LOOPING, Repeat(n), seen') == Running;
    }
  }

  const LIST := Id("t.ts", 0)
  const LIST_PARTS := [TypeLiteral([Prop("next", "next", Some(Ref("T", false, [])))]),
                       TypeLiteral([Prop("x", "x", Some(OtherType))])]

  /** `type T = { next: T } | { x: number }` */
  const LIST_WORLD := World(map[LIST := Alias(Union(LIST_PARTS))], map[("t.ts", "T") := LIST])

  /** The reading that takes the first branch while `n` steps or more are to go, then the second. */
  function NextUntil(n: nat): Reading {
    Reading((f, node, steps) => false, (f, node, steps: seq<Step>) => if |steps| >= n then 0 else 1)
  }

  /** What `T` has is what the branch taken has, and the first branch goes back to `T`. */
  lemma ListStep(rd: Reading, k: nat, steps: seq<Step>)
    requires k >= 4 && |steps| > 1 && steps[0] == Member("next")
    ensures Has(rd, k, LIST_WORLD, "t.ts", DeclNode(LIST), steps) ==
      (&& rd.branch("t.ts", TypeNode(Union(LIST_PARTS)), steps) % 2 == 0
       && Has(rd, k - 4, LIST_WORLD, "t.ts", DeclNode(LIST), steps[1..]))
  {
    var w, node := LIST_WORLD, TypeNode(Union(LIST_PARTS));
    var next, x := Prop("next", "next", Some(Ref("T", false, []))), Prop("x", "x", Some(OtherType));
    assert w.decls[LIST] == Alias(Union(LIST_PARTS));
    assert LIST_PARTS[0] == TypeLiteral([next]) && LIST_PARTS[1] == TypeLiteral([x]);
    assert Resolve(w, "t.ts", "T") == Some(LIST) && "T" !in PASSTHROUGH && "T" !in ARRAYS;
    assert Declares([next], "next", 0);
    assert Has(rd, k - 3, w, "t.ts", TypeNode(Ref("T", false, [])), steps[1..]) ==
        Has(rd, k - 4, w, "t.ts", DeclNode(LIST), steps[1..]);
    assert MemberHas(rd, k - 3, w, "t.ts", TypeNode(LIST_PARTS[0]), next, steps) ==
        Has(rd, k - 4, w, "t.ts", DeclNode(LIST), steps[1..]);
    assert Has(rd, k - 2, w, "t.ts", TypeNode(LIST_PARTS[0]), steps) ==
        Has(rd, k - 4, w, "t.ts", DeclNode(LIST), steps[1..]);
    assert !Has(rd, k - 2, w, "t.ts", TypeNode(LIST_PARTS[1]), steps);
    assert Has(rd, k, w, "t.ts", DeclNode(LIST), steps) == Has(rd, k - 1, w, "t.ts", node, steps);
  }

  lemma ListEnd(rd: Reading, k: nat)
    requires k >= 3 && rd.branch("t.ts", TypeNode(Union(LIST_PARTS)), [Member("x")]) % 2 == 1
    ensures Has(rd, k, LIST_WORLD, "t.ts", DeclNode(LIST), [Member("x")])
  {
    var w, node, steps := LIST_WORLD, TypeNode(Union(LIST_PARTS)), [Member("x")];
    var x := Prop("x", "x", Some(OtherType));
    assert w.decls[LIST] == Alias(Union(LIST_PARTS));
    assert LIST_PARTS[1] == TypeLiteral([x]) && Declares([x], "x", 0);
    assert MemberHas(rd, k - 3, w, "t.ts", TypeNode(LIST_PARTS[1]), x, steps);
    assert Has(rd, k - 2, w, "t.ts", TypeNode(LIST_PARTS[1]), steps);
    assert Has(rd, k - 1, w, "t.ts", node, steps);
  }

  /** Below four levels no derivation reaches past `T`'s own members. */
  lemma ListShallow(rd: Reading, k: nat, steps: seq<Step>)
    requires k < 4 && |steps| > 1 && steps[0] == Member("next")
    ensures !Has(rd, k, LIST_WORLD, "t.ts", DeclNode(LIST), steps)
  {
    var w := LIST_WORLD;
    var next, x := Prop("next", "next", Some(Ref("T", false, []))), Prop("x", "x", Some(OtherType));
    assert w.decls[LIST] == Alias(Union(LIST_PARTS));
    assert LIST_PARTS[0] == TypeLiteral([next]) && LIST_PARTS[1] == TypeLiteral([x]);
    if k == 3 {
      assert !Has(rd, 0, w, "t.ts", TypeNode(Ref("T", false, [])), steps[1..]);
      assert !Has(rd, 1, w, "t.ts", TypeNode(LIST_PARTS[0]), steps);
      assert !Has(rd, 1, w, "t.ts", TypeNode(LIST_PARTS[1]), steps);
    }
  }

  lemma ListIsClear()
    ensures Clear(LIST_WORLD, DeclNode(LIST), [Member("next"), Member("x")], {"next", "x"})
  {
    var names := {"next", "x"};
    assert Legible(LIST_PARTS[0], names) && Legible(LIST_PARTS[1], names);
    assert LIST_WORLD.decls[LIST] == Alias(Union(LIST_PARTS));
  }

  /** `next.x` is there when the value takes the first branch and then the second, and is not when it
      takes the second at once; so the walk, which may call it neither found nor missing, says unknown. */
  lemma RecursiveUnionIsUnknown(f: nat, seen: set<Key>)
    requires Lookup(f, LIST_WORLD, "t.ts", DeclNode(LIST), [Member("next"), Member("x")], seen).Out?
    ensures Has(NextUntil(2), 7, LIST_WORLD, "t.ts", DeclNode(LIST), [Member("next"), Member("x")])
    ensures forall k :: !Has(NextUntil(3), k, LIST_WORLD, "t.ts", DeclNode(LIST), [Member("next"), Member("x")])
    ensures Lookup(f, LIST_WORLD, "t.ts", DeclNode(LIST), [Member("next"), Member("x")], seen).answer == Unknown
  {
    var w, steps := LIST_WORLD, [Member("next"), Member("x")];
    assert steps[1..] == [Member("x")];
    hide Has, Lookup;
    ListEnd(NextUntil(2), 3);
    ListStep(NextUntil(2), 7, steps);
    forall k: nat
      ensures !Has(NextUntil(3), k, w, "t.ts", DeclNode(LIST), steps)
    {
      if k >= 4 { ListStep(NextUntil(3), k, steps); } else { ListShallow(NextUntil(3), k, steps); }
    }
    ListIsClear();
    match Lookup(f, w, "t.ts", DeclNode(LIST), steps, seen).answer
    case Found => var k := FoundIsSound(f, w, "t.ts", DeclNode(LIST), steps, seen, NextUntil(3), {"next", "x"});
    case Missing => MissingIsSound(f, w, "t.ts", DeclNode(LIST), steps, seen, NextUntil(2), 7, {"next", "x"});
    case Unknown =>
  }

  const QUOTED := Id("q.ts", 0)

  /** `interface C { 'a-b': number }` */
  const QUOTED_WORLD := World(map[QUOTED := Interface([Prop("a-b", "'a-b'", Some(OtherType))], [])], map[])

  /** A quoted property is passed over: the walk calls it missing, and it is there in every reading. */
  lemma QuotedIsMissed(f: nat, rd: Reading, k: nat)
    requires f >= 2 && k >= 1
    ensures Lookup(f, QUOTED_WORLD, "q.ts", DeclNode(QUOTED), [Member("a-b")], {}).Out?
    ensures Lookup(f, QUOTED_WORLD, "q.ts", DeclNode(QUOTED), [Member("a-b")], {}).answer == Missing
    ensures Has(rd, k, QUOTED_WORLD, "q.ts", DeclNode(QUOTED), [Member("a-b")])
  {
    var w, steps := QUOTED_WORLD, [Member("a-b")];
    var quoted := Prop("a-b", "'a-b'", Some(OtherType));
    assert w.decls[QUOTED] == Interface([quoted], []);
    assert "'a-b'" != "a-b";
    assert FirstProp([quoted], "a-b") == None;
    assert BaseTargets(w, "q.ts", []) == [];
    var seen := {} + {(QUOTED, 1)};
    assert LookupTargets(f - 1, w, [], steps, seen) == Outs([], seen);
    assert LookupInterface(f - 1, w, "q.ts", QUOTED, steps, seen) == Out(Missing, seen);
    assert Declares([quoted], "a-b", 0);
  }

  function OwnFile(name: string): Id {
    Id(name, 0)
  }

  /** `interface C extends L, R {}`, where `L` and `R` both extend an empty `Base`. */
  const DIAMOND := World(
    map[OwnFile("C") := Interface([], [Some("L"), Some("R")]), OwnFile("L") := Interface([], [Some("Base")]),
        OwnFile("R") := Interface([], [Some("Base")]), OwnFile("Base") := Interface([], [])],
    map[("C", "L") := OwnFile("L"), ("C", "R") := OwnFile("R"), ("L", "Base") := OwnFile("Base"),
        ("R", "Base") := OwnFile("Base")])

  lemma EmptyHasNothing(rd: Reading, k: nat, name: string, q: string)
    requires name in {"C", "L", "R", "Base"}
    ensures !Has(rd, k, DIAMOND, name, DeclNode(OwnFile(name)), [Member(q)])
    decreases k
  {
    if k > 0 {
      var d := DIAMOND.decls[OwnFile(name)];
      forall j | 0 <= j < |d.bases|
        ensures !BaseHas(rd, k - 1, DIAMOND, name, DeclNode(OwnFile(name)), d.bases[j], [Member(q)])
      {
        assert Resolve(DIAMOND, name, d.bases[j].value) == Some(OwnFile(d.bases[j].value));
        EmptyHasNothing(rd, k - 1, d.bases[j].value, q);
      }
    }
  }

  /** `seen` also meets a declaration reached twice without any recursion: the second visit counts
      as unknown, so a member absent under every reading is not reported as missing. */
  lemma DiamondHidesMiss(f: nat, q: string)
    requires f >= 3
    ensures Lookup(f, DIAMOND, "C", DeclNode(OwnFile("C")), [Member(q)], {}).Out?
    ensures Lookup(f, DIAMOND, "C", DeclNode(OwnFile("C")), [Member(q)], {}).answer == Unknown
    ensures forall rd, k :: !Has(rd, k, DIAMOND, "C", DeclNode(OwnFile("C")), [Member(q)])
  {
    var w, steps := DIAMOND, [Member(q)];
    forall rd, k: nat
      ensures !Has(rd, k, w, "C", DeclNode(OwnFile("C")), steps)
    {
      EmptyHasNothing(rd, k, "C", q);
    }
    var c, l, r, b := (OwnFile("C"), 1), (OwnFile("L"), 1), (OwnFile("R"), 1), (OwnFile("Base"), 1);
    var base := [At("Base", DeclNode(OwnFile("Base")))];
    assert LookupTargets(f - 2, w, [], steps, {c, l}) == Outs([], {c, l});
    assert LookupTargets(f - 3, w, [], steps, {c, l, b}) == Outs([], {c, l, b});
    assert BaseTargets(w, "Base", []) == [];
    assert LookupInterface(f - 3, w, "Base", OwnFile("Base"), steps, {c, l} + {b}) == Out(Missing, {c, l} + {b});
    assert {c, l} + {b} == {c, l, b};
    assert Lookup(f - 2, w, "Base", DeclNode(OwnFile("Base")), steps, {c, l}) == Out(Missing, {c, l, b});
    DiamondSides(f, q);
  }

  lemma DiamondLeft(f: nat, q: string)
    requires f >= 3
    requires var c, l, b := (OwnFile("C"), 1), (OwnFile("L"), 1), (OwnFile("Base"), 1);
      Lookup(f - 2, DIAMOND, "Base", DeclNode(OwnFile("Base")), [Member(q)], {c, l}) == Out(Missing, {c, l, b})
    ensures var c, l, b := (OwnFile("C"), 1), (OwnFile("L"), 1), (OwnFile("Base"), 1);
      Lookup(f - 1, DIAMOND, "L", DeclNode(OwnFile("L")), [Member(q)], {c}) == Out(Missing, {c, l, b})
  {
    var w, steps := DIAMOND, [Member(q)];
    var c, l, b := (OwnFile("C"), 1), (OwnFile("L"), 1), (OwnFile("Base"), 1);
    var base := [At("Base", DeclNode(OwnFile("Base")))];
    assert BaseTargets(w, "L", [Some("Base")]) == base;
    assert base[..0] == [];
    assert LookupTargets(f - 2, w, base, steps, {c, l}) == Outs([Missing], {c, l, b});
    assert {c} + {l} == {c, l};
    assert LookupInterface(f - 2, w, "L", OwnFile("L"), steps, {c, l}) == Out(Missing, {c, l, b});
  }

  /** The base is met a second time. */
  lemma DiamondAgain(f: nat, q: string)
    requires f >= 3
    ensures var c, l, r, b := (OwnFile("C"), 1), (OwnFile("L"), 1), (OwnFile("R"), 1), (OwnFile("Base"), 1);
      LookupTargets(f - 2, DIAMOND, [At("Base", DeclNode(OwnFile("Base")))], [Member(q)], {c, l, b, r}) ==
          Outs([Unknown], {c, l, b, r})
  {
    var c, l, r, b := (OwnFile("C"), 1), (OwnFile("L"), 1), (OwnFile("R"), 1), (OwnFile("Base"), 1);
    var base := [At("Base", DeclNode(OwnFile("Base")))];
    assert base[..0] == [];
    assert LookupTargets(f - 2, DIAMOND, [], [Member(q)], {c, l, b, r}) == Outs([], {c, l, b, r});
    assert Lookup(f - 2, DIAMOND, "Base", DeclNode(OwnFile("Base")), [Member(q)], {c, l, b, r}) ==
        Out(Unknown, {c, l, b, r});
  }

  lemma DiamondRight(f: nat, q: string)
    requires f >= 3
    ensures var c, l, r, b := (OwnFile("C"), 1), (OwnFile("L"), 1), (OwnFile("R"), 1), (OwnFile("Base"), 1);
      Lookup(f - 1, DIAMOND, "R", DeclNode(OwnFile("R")), [Member(q)], {c, l, b}) == Out(Unknown, {c, l, b, r})
  {
    var w, steps := DIAMOND, [Member(q)];
    var c, l, r, b := (OwnFile("C"), 1), (OwnFile("L"), 1), (OwnFile("R"), 1), (OwnFile("Base"), 1);
    var base := [At("Base", DeclNode(OwnFile("Base")))];
    DiamondAgain(f, q);
    hide LookupTargets;
    assert BaseTargets(w, "R", [Some("Base")]) == base;
    assert {c, l, b} + {r} == {c, l, b, r};
    assert LookupInterface(f - 2, w, "R", OwnFile("R"), steps, {c, l, b, r}) == Out(Unknown, {c, l, b, r});
  }

  lemma DiamondSides(f: nat, q: string)
    requires f >= 3
    requires var c, l, b := (OwnFile("C"), 1), (OwnFile("L"), 1), (OwnFile("Base"), 1);
      Lookup(f - 2, DIAMOND, "Base", DeclNode(OwnFile("Base")), [Member(q)], {c, l}) == Out(Missing, {c, l, b})
    ensures Lookup(f, DIAMOND, "C", DeclNode(OwnFile("C")), [Member(q)], {}).Out?
    ensures Lookup(f, DIAMOND, "C", DeclNode(OwnFile("C")), [Member(q)], {}).answer == Unknown
  {
    var w, steps := DIAMOND, [Member(q)];
    var c, l, r, b := (OwnFile("C"), 1), (OwnFile("L"), 1), (OwnFile("R"), 1), (OwnFile("Base"), 1);
    DiamondLeft(f, q);
    DiamondRight(f, q);
    var sides := [At("L", DeclNode(OwnFile("L"))), At("R", DeclNode(OwnFile("R")))];
    assert BaseTargets(w, "C", [Some("L"), Some("R")]) == sides;
    assert sides[..1] == [sides[0]] && sides[..1][..0] == [];
    assert LookupTargets(f - 1, w, sides[..1], steps, {c}) == Outs([Missing], {c, l, b});
    assert LookupTargets(f - 1, w, sides, steps, {c}) == Outs([Missing, Unknown], {c, l, b, r});
    assert {} + {c} == {c};
  }
}
