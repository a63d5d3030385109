/** `lookupPath` of `scripts/gen-config-catalog.ts`: does a declared type have a member at the end
    of a key path? Three-valued, over possibly recursive declarations. */
module TypePaths {
  import opened Options

  datatype Step = Member(name: string) | Element

  /** A type element: a property signature, or one the walk passes over. `key` is the property's name,
      `written` its text in the source, which differs for a quoted or computed name. */
  datatype Prop = Prop(key: string, written: string, ty: Option<Type>) | OtherElement

  datatype Type =
    | TypeLiteral(members: seq<Prop>)
    | Parenthesized(inner: Type)
    | Intersection(parts: seq<Type>)
    | Union(parts: seq<Type>)
    | ArrayOf(element: Type)
    | Operator(inner: Type)                      // read as `readonly`
    | Indexed(object: Type, key: Option<string>) // `None`: the index is no string literal
    | Ref(head: string, qualified: bool, args: seq<Type>)
    | OtherType

  /** `None`: the heritage expression is no identifier. */
  datatype Decl = Interface(members: seq<Prop>, bases: seq<Option<string>>) | Alias(body: Type) | Enum

  /** A declaration by file and source position. */
  datatype Id = Id(file: string, pos: nat)

  datatype Node = DeclNode(id: Id) | TypeNode(ty: Type)

  /** `names` is what `declForTypeName` answers for a name used in a file. */
  datatype World = World(decls: map<Id, Decl>, names: map<(string, string), Id>)

  datatype PathLookup = Found | Missing | Unknown

  type Key = (Id, nat)

  function Resolve(w: World, file: string, name: string): Option<Id> {
    if (file, name) in w.names && w.names[(file, name)] in w.decls then Some(w.names[(file, name)]) else None
  }

  const PASSTHROUGH := {"Partial", "Required", "Readonly", "NonNullable"}
  const ARRAYS := {"Array", "ReadonlyArray"}

  // ---------------------------------------------------------------- what a path being there means

  /** One way the things the walk cannot see through may turn out: what paths an opaque node has,
      and which branch of each union a value takes at each point of the path, told by the steps still
      to go: a value of a recursive union may take another branch at every depth. */
  datatype Reading = Reading(opaquePath: (string, Node, seq<Step>) -> bool, branch: (string, Node, seq<Step>) -> nat)

  /** `i` is where `members` first declares a property `name`. */
  predicate Declares(members: seq<Prop>, name: string, i: nat) {
    && i < |members|
    && members[i].Prop? && members[i].key == name
    && forall j :: 0 <= j < i ==> !(members[j].Prop? && members[j].key == name)
  }

  predicate DeclaresNone(members: seq<Prop>, name: string) {
    forall j :: 0 <= j < |members| ==> !(members[j].Prop? && members[j].key == name)
  }

  /** The declared member at `i` is there, and carries the rest of the path. */
  ghost predicate MemberHas(rd: Reading, k: nat, w: World, file: string, node: Node, prop: Prop, steps: seq<Step>)
    requires steps != [] && prop.Prop?
    decreases k, 1
  {
    || |steps| == 1
    || (if prop.ty.Some? then Has(rd, k, w, file, TypeNode(prop.ty.value), steps[1..])
        else rd.opaquePath(file, node, steps))
  }

  ghost predicate BaseHas(rd: Reading, k: nat, w: World, file: string, node: Node, base: Option<string>,
          steps: seq<Step>)
    decreases k, 1
  {
    if base.None? || Resolve(w, file, base.value).None? then rd.opaquePath(file, node, steps)
    else var id := Resolve(w, file, base.value).value; Has(rd, k, w, id.file, DeclNode(id), steps)
  }

  /** Under the reading, the path is there by a derivation of depth at most `k`. */
  ghost predicate Has(rd: Reading, k: nat, w: World, file: string, node: Node, steps: seq<Step>)
    decreases k, 0
  {
    if steps == [] then true
    else if k == 0 then false
    else match node
      case DeclNode(id) =>
        if id !in w.decls then rd.opaquePath(file, node, steps)
        else (match w.decls[id]
          case Interface(members, bases) =>
            if steps[0].Element? then rd.opaquePath(file, node, steps)
            else
              || (exists i: nat ::
                    Declares(members, steps[0].name, i) && MemberHas(rd, k - 1, w, file, node, members[i], steps))
              || (&& DeclaresNone(members, steps[0].name)
                  && exists j :: 0 <= j < |bases| && BaseHas(rd, k - 1, w, file, node, bases[j], steps))
          case Alias(body) => Has(rd, k - 1, w, file, TypeNode(body), steps)
          case Enum => rd.opaquePath(file, node, steps))
      case TypeNode(ty) =>
        match ty
        case TypeLiteral(members) =>
          if steps[0].Element? then rd.opaquePath(file, node, steps)
          else
            exists i: nat ::
              Declares(members, steps[0].name, i) && MemberHas(rd, k - 1, w, file, node, members[i], steps)
        case Parenthesized(inner) => Has(rd, k - 1, w, file, TypeNode(inner), steps)
        case Intersection(parts) => exists i :: 0 <= i < |parts| && Has(rd, k - 1, w, file, TypeNode(parts[i]), steps)
        case Union(parts) =>
          parts != [] ==> Has(rd, k - 1, w, file, TypeNode(parts[rd.branch(file, node, steps) % |parts|]), steps)
        case ArrayOf(element) =>
          if steps[0].Element? then Has(rd, k - 1, w, file, TypeNode(element), steps[1..])
          else rd.opaquePath(file, node, steps)
        case Operator(inner) => Has(rd, k - 1, w, file, TypeNode(inner), steps)
        case Indexed(obj, key) =>
          if key.Some? then Has(rd, k - 1, w, file, TypeNode(obj), [Member(key.value)] + steps)
          else rd.opaquePath(file, node, steps)
        case Ref(head, qualified, args) =>
          if head in {"Partial", "Required", "Readonly", "NonNullable"} && args != [] then
            Has(rd, k - 1, w, file, TypeNode(args[0]), steps)
          else if head in {"Array", "ReadonlyArray"} && args != [] then
            if steps[0].Element? then Has(rd, k - 1, w, file, TypeNode(args[0]), steps[1..])
            else rd.opaquePath(file, node, steps)
          else if qualified || Resolve(w, file, head).None? then rd.opaquePath(file, node, steps)
          else var id := Resolve(w, file, head).value; Has(rd, k - 1, w, id.file, DeclNode(id), steps)
        case OtherType => rd.opaquePath(file, node, steps)
  }

  // ---------------------------------------------------------------- the walk, as a function

  /** The answer and the shared `seen` set after it; or the walk has not returned within the fuel. */
  datatype Outcome = Out(answer: PathLookup, seen: set<Key>) | Running

  datatype Outcomes = Outs(answers: seq<PathLookup>, seen: set<Key>) | StillRunning

  /** Something to walk: a node in a file, or what cannot be reached. */
  datatype Target = At(file: string, node: Node) | OutOfReach

  function Combine(results: seq<PathLookup>): PathLookup {
    if Found in results then Found else if Unknown in results then Unknown else Missing
  }

  function Agree(results: seq<PathLookup>): PathLookup {
    if forall r :: r in results ==> r == Found then Found
    else if forall r :: r in results ==> r == Missing then Missing
    else Unknown
  }

  /** `i` is where `members` first has a property written as `name`. */
  predicate Writes(members: seq<Prop>, name: string, i: nat) {
    && i < |members|
    && members[i].Prop? && members[i].written == name
    && forall j :: 0 <= j < i ==> !(members[j].Prop? && members[j].written == name)
  }

  predicate WritesNone(members: seq<Prop>, name: string) {
    forall j :: 0 <= j < |members| ==> !(members[j].Prop? && members[j].written == name)
  }

  /** The property the member loop finds: it compares the name's text in the source. */
  function FirstProp(members: seq<Prop>, name: string): (i: Option<nat>)
    ensures i.Some? ==> Writes(members, name, i.value)
    ensures i.None? ==> WritesNone(members, name)
  {
    if members == [] then None
    else if members[0].Prop? && members[0].written == name then Some(0)
    else match FirstProp(members[1..], name)
      case None => assert forall j :: 1 <= j < |members| ==> members[j] == members[1..][j - 1]; None
      case Some(i) => assert forall j :: 1 <= j <= i ==> members[j] == members[1..][j - 1]; Some(i + 1)
  }

  function BaseTarget(w: World, file: string, base: Option<string>): Target {
    if base.None? then OutOfReach
    else match Resolve(w, file, base.value)
      case None => OutOfReach
      case Some(id) => At(id.file, DeclNode(id))
  }

  function BaseTargets(w: World, file: string, bases: seq<Option<string>>): seq<Target> {
    seq(|bases|, i requires 0 <= i < |bases| => BaseTarget(w, file, bases[i]))
  }

  function PartTargets(file: string, parts: seq<Type>): seq<Target> {
    seq(|parts|, i requires 0 <= i < |parts| => At(file, TypeNode(parts[i])))
  }

  predicate Guarded(w: World, node: Node) {
    node.DeclNode? && node.id in w.decls && !w.decls[node.id].Enum?
  }

  function Lookup(f: nat, w: World, file: string, node: Node, steps: seq<Step>, seen: set<Key>): Outcome
    decreases f, 0
  {
    if steps == [] then Out(Found, seen)
    else if f == 0 then Running
    else if Guarded(w, node) then
      if (node.id, |steps|) in seen then Out(Unknown, seen)
      else if w.decls[node.id].Interface? then
        LookupInterface(f - 1, w, file, node.id, steps, seen + {(node.id, |steps|)})
      else Lookup(f - 1, w, file, TypeNode(w.decls[node.id].body), steps, seen + {(node.id, |steps|)})
    else if node.TypeNode? then LookupType(f - 1, w, file, node.ty, steps, seen)
    else Out(Unknown, seen)
  }

  function LookupProp(f: nat, w: World, file: string, prop: Prop, steps: seq<Step>, seen: set<Key>): Outcome
    requires steps != [] && prop.Prop?
    decreases f, 1
  {
    if |steps| == 1 then Out(Found, seen)
    else if prop.ty.Some? then Lookup(f, w, file, TypeNode(prop.ty.value), steps[1..], seen)
    else Out(Unknown, seen)
  }

  function LookupInterface(f: nat, w: World, file: string, id: Id, steps: seq<Step>, seen: set<Key>): Outcome
    requires steps != [] && id in w.decls && w.decls[id].Interface?
    decreases f, |w.decls[id].bases| + 3
  {
    var d := w.decls[id];
    if steps[0].Element? then Out(Unknown, seen)
    else match FirstProp(d.members, steps[0].name)
      case Some(i) => LookupProp(f, w, file, d.members[i], steps, seen)
      case None =>
        match LookupTargets(f, w, BaseTargets(w, file, d.bases), steps, seen)
        case StillRunning => Running
        case Outs(rs, seen') => Out(Combine(rs), seen')
  }

  function LookupTargets(f: nat, w: World, targets: seq<Target>, steps: seq<Step>, seen: set<Key>): Outcomes
    decreases f, |targets| + 2
  {
    if targets == [] then Outs([], seen)
    else match LookupTargets(f, w, targets[..|targets| - 1], steps, seen)
      case StillRunning => StillRunning
      case Outs(rs, seen') =>
        match LookupTarget(f, w, targets[|targets| - 1], steps, seen')
        case Running => StillRunning
        case Out(r, seen'') => Outs(rs + [r], seen'')
  }

  function LookupTarget(f: nat, w: World, target: Target, steps: seq<Step>, seen: set<Key>): Outcome
    decreases f, 1
  {
    if target.OutOfReach? then Out(Unknown, seen) else Lookup(f, w, target.file, target.node, steps, seen)
  }

  function Parts(ty: Type): nat {
    if ty.Intersection? || ty.Union? then |ty.parts| else 0
  }

  function LookupType(f: nat, w: World, file: string, ty: Type, steps: seq<Step>, seen: set<Key>): Outcome
    requires steps != []
    decreases f, Parts(ty) + 3
  {
    match ty
    case TypeLiteral(members) =>
      if steps[0].Element? then Out(Unknown, seen)
      else (match FirstProp(members, steps[0].name)
        case Some(i) => LookupProp(f, w, file, members[i], steps, seen)
        case None => Out(Missing, seen))
    case Parenthesized(inner) => Lookup(f, w, file, TypeNode(inner), steps, seen)
    case Intersection(parts) =>
      (match LookupTargets(f, w, PartTargets(file, parts), steps, seen)
       case StillRunning => Running
       case Outs(rs, seen') => Out(Combine(rs), seen'))
    case Union(parts) =>
      (match LookupTargets(f, w, PartTargets(file, parts), steps, seen)
       case StillRunning => Running
       case Outs(rs, seen') => Out(Agree(rs), seen'))
    case ArrayOf(element) =>
      if steps[0].Element? then Lookup(f, w, file, TypeNode(element), steps[1..], seen) else Out(Unknown, seen)
    case Operator(inner) => Lookup(f, w, file, TypeNode(inner), steps, seen)
    case Indexed(obj, key) =>
      if key.Some? then Lookup(f, w, file, TypeNode(obj), [Member(key.value)] + steps, seen) else Out(Unknown, seen)
    case Ref(head, qualified, args) =>
      if head in PASSTHROUGH && args != [] then Lookup(f, w, file, TypeNode(args[0]), steps, seen)
      else if head in ARRAYS && args != [] then
        if steps[0].Element? then Lookup(f, w, file, TypeNode(args[0]), steps[1..], seen) else Out(Unknown, seen)
      else if qualified then Out(Unknown, seen)
      else (match Resolve(w, file, head)
        case None => Out(Unknown, seen)
        case Some(id) => Lookup(f, w, id.file, DeclNode(id), steps, seen))
    case OtherType => Out(Unknown, seen)
  }

  // ---------------------------------------------------------------- soundness

  /** Each answer about a list of targets is the answer about that target, from some `seen`. */
  lemma {:induction false} TargetAnswer(f: nat, w: World, targets: seq<Target>, steps: seq<Step>, seen: set<Key>,
          j: nat)
    returns (s: set<Key>)
    requires j < |targets|
    requires LookupTargets(f, w, targets, steps, seen).Outs?
    ensures |LookupTargets(f, w, targets, steps, seen).answers| == |targets|
    ensures LookupTarget(f, w, targets[j], steps, s).Out?
    ensures LookupTarget(f, w, targets[j], steps, s).answer == LookupTargets(f, w, targets, steps, seen).answers[j]
    decreases |targets|
  {
    var n := |targets| - 1;
    var before := LookupTargets(f, w, targets[..n], steps, seen);
    AnswerCount(f, w, targets[..n], steps, seen);
    if j == n {
      s := before.seen;
    } else {
      s := TargetAnswer(f, w, targets[..n], steps, seen, j);
    }
  }

  lemma {:induction false} AnswerCount(f: nat, w: World, targets: seq<Target>, steps: seq<Step>, seen: set<Key>)
    requires LookupTargets(f, w, targets, steps, seen).Outs?
    ensures |LookupTargets(f, w, targets, steps, seen).answers| == |targets|
    decreases |targets|
  {
    if targets != [] {
      AnswerCount(f, w, targets[..|targets| - 1], steps, seen);
    }
  }

  lemma CombineFound(rs: seq<PathLookup>) returns (j: nat)
    requires Combine(rs) == Found
    ensures j < |rs| && rs[j] == Found
  {
    j :| 0 <= j < |rs| && rs[j] == Found;
  }

  lemma CombineMissing(rs: seq<PathLookup>, j: nat)
    requires j < |rs| && Combine(rs) == Missing
    ensures rs[j] == Missing
  {
  }

  lemma DeclaredOnce(members: seq<Prop>, name: string, i: nat, j: nat)
    requires Declares(members, name, i) && Declares(members, name, j)
    ensures i == j
  {
  }

  // A property's text need not be its name. The walk can be trusted for the names whose properties are
  // written as they are named.

  predicate LegibleProp(m: Prop, names: set<string>)
    decreases m, 1
  {
    m.Prop? ==>
      && (m.key in names || m.written in names ==> m.key == m.written)
      && (m.ty.Some? ==> Legible(m.ty.value, names))
  }

  /** No property in the type has one of the names and another text, or one of them as its text and
      another name; and the keys of its indexed accesses are among the names. */
  predicate Legible(ty: Type, names: set<string>)
    decreases ty, 0
  {
    match ty
    case TypeLiteral(members) => forall m :: m in members ==> LegibleProp(m, names)
    case Parenthesized(inner) => Legible(inner, names)
    case Operator(inner) => Legible(inner, names)
    case Intersection(parts) => forall p :: p in parts ==> Legible(p, names)
    case Union(parts) => forall p :: p in parts ==> Legible(p, names)
    case ArrayOf(element) => Legible(element, names)
    case Indexed(obj, key) => key.Some? ==> key.value in names && Legible(obj, names)
    case Ref(_, _, args) => args != [] ==> Legible(args[0], names)
    case OtherType => true
  }

  predicate LegibleWorld(w: World, names: set<string>) {
    forall id :: id in w.decls ==>
      match w.decls[id]
      case Interface(members, _) => forall m :: m in members ==> LegibleProp(m, names)
      case Alias(body) => Legible(body, names)
      case Enum => true
  }

  predicate Named(steps: seq<Step>, names: set<string>) {
    forall i :: 0 <= i < |steps| && steps[i].Member? ==> steps[i].name in names
  }

  /** Everything the walk may meet is legible for the names its path may come to hold. */
  predicate Clear(w: World, node: Node, steps: seq<Step>, names: set<string>) {
    LegibleWorld(w, names) && Named(steps, names) && (node.TypeNode? ==> Legible(node.ty, names))
  }

  lemma SameMember(members: seq<Prop>, name: string, names: set<string>)
    requires name in names && forall m :: m in members ==> LegibleProp(m, names)
    ensures forall i: nat :: Writes(members, name, i) <==> Declares(members, name, i)
    ensures WritesNone(members, name) <==> DeclaresNone(members, name)
  {
    assert forall i :: 0 <= i < |members| && members[i].Prop? ==>
      (members[i].key == name <==> members[i].written == name) by {
      forall i | 0 <= i < |members| && members[i].Prop?
        ensures members[i].key == name <==> members[i].written == name
      {
        assert members[i] in members;
      }
    }
  }

  /** For one list of members and a path of one step: the answer is right exactly when a property has the
      name if and only if one is written as it. It is wrongly missing exactly when one has the name and
      none is written as it, and wrongly found exactly the other way round. */
  lemma MemberListIff(f: nat, w: World, file: string, members: seq<Prop>, name: string, seen: set<Key>, rd: Reading,
          k: nat)
    requires f > 0 && k > 0
    ensures var node, steps := TypeNode(TypeLiteral(members)), [Member(name)];
            var r := Lookup(f, w, file, node, steps, seen);
            && r.Out? && r.answer != Unknown
            && ((r.answer == Found <==> Has(rd, k, w, file, node, steps))
                  <==> (DeclaresNone(members, name) <==> WritesNone(members, name)))
            && ((r.answer == Missing && Has(rd, k, w, file, node, steps))
                  <==> !DeclaresNone(members, name) && WritesNone(members, name))
            && ((r.answer == Found && !Has(rd, k, w, file, node, steps))
                  <==> DeclaresNone(members, name) && !WritesNone(members, name))
  {
    SomeDeclared(members, name);
    if i: nat :| Declares(members, name, i) {
      DeclaredIsSome(members, name, i);
    }
    MemberListAnswer(f, w, file, members, name, seen);
    MemberListHas(w, file, members, name, rd, k);
    hide Lookup, Has, Declares, DeclaresNone, WritesNone;
  }

  lemma MemberListAnswer(f: nat, w: World, file: string, members: seq<Prop>, name: string, seen: set<Key>)
    requires f > 0
    ensures Lookup(f, w, file, TypeNode(TypeLiteral(members)), [Member(name)], seen)
         == Out(if WritesNone(members, name) then Missing else Found, seen)
  {
    var lit, steps := TypeLiteral(members), [Member(name)];
    assert Lookup(f, w, file, TypeNode(lit), steps, seen) == LookupType(f - 1, w, file, lit, steps, seen);
    match FirstProp(members, name)
    case Some(i) => assert LookupProp(f - 1, w, file, members[i], steps, seen) == Out(Found, seen);
    case None =>
  }

  lemma MemberListHas(w: World, file: string, members: seq<Prop>, name: string, rd: Reading, k: nat)
    requires k > 0
    ensures Has(rd, k, w, file, TypeNode(TypeLiteral(members)), [Member(name)]) <==>
      exists i: nat :: Declares(members, name, i)
  {
    var node, steps := TypeNode(TypeLiteral(members)), [Member(name)];
    assert forall i: nat :: Declares(members, name, i) ==> MemberHas(rd, k - 1, w, file, node, members[i], steps);
  }

  lemma DeclaredIsSome(members: seq<Prop>, name: string, i: nat)
    requires Declares(members, name, i)
    ensures !DeclaresNone(members, name)
  {
  }

  lemma {:induction false} SomeDeclared(members: seq<Prop>, name: string)
    ensures DeclaresNone(members, name) || exists i: nat :: Declares(members, name, i)
  {
    if members != [] && !DeclaresNone(members, name) {
      if members[0].Prop? && members[0].key == name {
        assert Declares(members, name, 0);
      } else {
        SomeDeclared(members[1..], name);
        assert forall j :: 1 <= j < |members| ==> members[j] == members[1..][j - 1];
        var i: nat :| Declares(members[1..], name, i);
        assert Declares(members, name, i + 1);
      }
    }
  }

  /** `found` is right under every reading of what the walk cannot see. */
  lemma {:induction false} FoundIsSound(f: nat, w: World, file: string, node: Node, steps: seq<Step>, seen: set<Key>,
          rd: Reading, names: set<string>)
    returns (k: nat)
    requires Clear(w, node, steps, names)
    requires Lookup(f, w, file, node, steps, seen).Out? && Lookup(f, w, file, node, steps, seen).answer == Found
    ensures Has(rd, k, w, file, node, steps)
    decreases f, 0
  {
    if steps == [] {
      k := 0;
    } else if node.DeclNode? {
      var key := (node.id, |steps|);
      if w.decls[node.id].Interface? {
        k := InterfaceFound(f - 1, w, file, node.id, steps, seen + {key}, rd, names);
      } else {
        k := FoundIsSound(f - 1, w, file, TypeNode(w.decls[node.id].body), steps, seen + {key}, rd, names);
        k := k + 1;
      }
    } else {
      k := TypeFound(f - 1, w, file, node.ty, steps, seen, rd, names);
    }
  }

  lemma PropFound(f: nat, w: World, file: string, node: Node, prop: Prop, steps: seq<Step>, seen: set<Key>,
          rd: Reading, names: set<string>)
    returns (k: nat)
    requires steps != [] && prop.Prop? && LegibleProp(prop, names) && LegibleWorld(w, names) && Named(steps, names)
    requires LookupProp(f, w, file, prop, steps, seen).Out? && LookupProp(f, w, file, prop, steps, seen).answer == Found
    ensures MemberHas(rd, k, w, file, node, prop, steps)
    decreases f, 1
  {
    if |steps| == 1 {
      k := 0;
    } else {
      k := FoundIsSound(f, w, file, TypeNode(prop.ty.value), steps[1..], seen, rd, names);
    }
  }

  lemma InterfaceFound(f: nat, w: World, file: string, id: Id, steps: seq<Step>, seen: set<Key>, rd: Reading,
          names: set<string>)
    returns (k: nat)
    requires steps != [] && id in w.decls && w.decls[id].Interface?
    requires LegibleWorld(w, names) && Named(steps, names)
    requires LookupInterface(f, w, file, id, steps, seen).Out?
    requires LookupInterface(f, w, file, id, steps, seen).answer == Found
    ensures Has(rd, k, w, file, DeclNode(id), steps)
    decreases f, 2
  {
    var d := w.decls[id];
    SameMember(d.members, steps[0].name, names);
    match FirstProp(d.members, steps[0].name)
    case Some(i) =>
      k := PropFound(f, w, file, DeclNode(id), d.members[i], steps, seen, rd, names);
      k := k + 1;
    case None =>
      var targets := BaseTargets(w, file, d.bases);
      var rs := LookupTargets(f, w, targets, steps, seen).answers;
      var j := CombineFound(rs);
      AnswerCount(f, w, targets, steps, seen);
      var s := TargetAnswer(f, w, targets, steps, seen, j);
      var t := targets[j];
      k := FoundIsSound(f, w, t.file, t.node, steps, s, rd, names);
      assert BaseHas(rd, k, w, file, DeclNode(id), d.bases[j], steps);
      k := k + 1;
  }

  lemma PartFound(f: nat, w: World, file: string, parts: seq<Type>, steps: seq<Step>, seen: set<Key>, rd: Reading,
          j: nat, names: set<string>)
    returns (k: nat)
    requires LookupTargets(f, w, PartTargets(file, parts), steps, seen).Outs?
    requires j < |parts| && Clear(w, TypeNode(parts[j]), steps, names)
    requires j < |LookupTargets(f, w, PartTargets(file, parts), steps, seen).answers|
    requires LookupTargets(f, w, PartTargets(file, parts), steps, seen).answers[j] == Found
    ensures Has(rd, k, w, file, TypeNode(parts[j]), steps)
    decreases f, 1
  {
    var s := TargetAnswer(f, w, PartTargets(file, parts), steps, seen, j);
    k := FoundIsSound(f, w, file, TypeNode(parts[j]), steps, s, rd, names);
  }

  lemma TypeFound(f: nat, w: World, file: string, ty: Type, steps: seq<Step>, seen: set<Key>, rd: Reading,
          names: set<string>)
    returns (k: nat)
    requires steps != [] && Clear(w, TypeNode(ty), steps, names)
    requires LookupType(f, w, file, ty, steps, seen).Out? && LookupType(f, w, file, ty, steps, seen).answer == Found
    ensures Has(rd, k, w, file, TypeNode(ty), steps)
    decreases f, 2
  {
    match ty {
    case TypeLiteral(members) =>
      SameMember(members, steps[0].name, names);
      var i := FirstProp(members, steps[0].name).value;
      k := PropFound(f, w, file, TypeNode(ty), members[i], steps, seen, rd, names);
    case Intersection(parts) =>
      var rs := LookupTargets(f, w, PartTargets(file, parts), steps, seen).answers;
      AnswerCount(f, w, PartTargets(file, parts), steps, seen);
      var j := CombineFound(rs);
      k := PartFound(f, w, file, parts, steps, seen, rd, j, names);
    case Union(parts) =>
      k := 0;
      if parts != [] {
        var rs := LookupTargets(f, w, PartTargets(file, parts), steps, seen).answers;
        AnswerCount(f, w, PartTargets(file, parts), steps, seen);
        var j := rd.branch(file, TypeNode(ty), steps) % |parts|;
        assert rs[j] in rs;
        k := PartFound(f, w, file, parts, steps, seen, rd, j, names);
      }
    case Indexed(obj, key) =>
      k := FoundIsSound(f, w, file, TypeNode(obj), [Member(key.value)] + steps, seen, rd, names);
    case ArrayOf(element) =>
      k := FoundIsSound(f, w, file, TypeNode(element), steps[1..], seen, rd, names);
    case Ref(head, qualified, args) =>
      if head in PASSTHROUGH && args != [] {
        k := FoundIsSound(f, w, file, TypeNode(args[0]), steps, seen, rd, names);
      } else if head in ARRAYS && args != [] {
        k := FoundIsSound(f, w, file, TypeNode(args[0]), steps[1..], seen, rd, names);
      } else {
        var id := Resolve(w, file, head).value;
        k := FoundIsSound(f, w, id.file, DeclNode(id), steps, seen, rd, names);
      }
    case Parenthesized(inner) => k := FoundIsSound(f, w, file, TypeNode(inner), steps, seen, rd, names);
    case Operator(inner) => k := FoundIsSound(f, w, file, TypeNode(inner), steps, seen, rd, names);
    case OtherType =>
    }
    k := k + 1;
  }

  /** `missing` is right under every reading, whatever `seen` held before. */
  lemma {:induction false} MissingIsSound(f: nat, w: World, file: string, node: Node, steps: seq<Step>, seen: set<Key>,
          rd: Reading, k: nat, names: set<string>)
    requires Clear(w, node, steps, names)
    requires Lookup(f, w, file, node, steps, seen).Out? && Lookup(f, w, file, node, steps, seen).answer == Missing
    ensures !Has(rd, k, w, file, node, steps)
    decreases f, 0
  {
    if k > 0 {
      if node.DeclNode? {
        var key := (node.id, |steps|);
        if w.decls[node.id].Interface? {
          InterfaceMissing(f - 1, w, file, node.id, steps, seen + {key}, rd, k, names);
        } else {
          MissingIsSound(f - 1, w, file, TypeNode(w.decls[node.id].body), steps, seen + {key}, rd, k - 1, names);
        }
      } else {
        TypeMissing(f - 1, w, file, node.ty, steps, seen, rd, k, names);
      }
    }
  }

  lemma PropMissing(f: nat, w: World, file: string, node: Node, prop: Prop, steps: seq<Step>, seen: set<Key>,
          rd: Reading, k: nat, names: set<string>)
    requires steps != [] && prop.Prop? && LegibleProp(prop, names) && LegibleWorld(w, names) && Named(steps, names)
    requires LookupProp(f, w, file, prop, steps, seen).Out?
    requires LookupProp(f, w, file, prop, steps, seen).answer == Missing
    ensures !MemberHas(rd, k, w, file, node, prop, steps)
    decreases f, 1
  {
    MissingIsSound(f, w, file, TypeNode(prop.ty.value), steps[1..], seen, rd, k, names);
  }

  lemma MembersMissing(f: nat, w: World, file: string, node: Node, members: seq<Prop>, i: nat, steps: seq<Step>,
          seen: set<Key>, rd: Reading,
          k: nat, names: set<string>)
    requires steps != [] && steps[0].Member? && Declares(members, steps[0].name, i)
    requires LegibleProp(members[i], names) && LegibleWorld(w, names) && Named(steps, names)
    requires LookupProp(f, w, file, members[i], steps, seen).Out?
    requires LookupProp(f, w, file, members[i], steps, seen).answer == Missing
    ensures forall j: nat :: Declares(members, steps[0].name, j) ==> !MemberHas(rd, k, w, file, node, members[j], steps)
    decreases f, 2
  {
    PropMissing(f, w, file, node, members[i], steps, seen, rd, k, names);
    forall j: nat | Declares(members, steps[0].name, j)
      ensures !MemberHas(rd, k, w, file, node, members[j], steps)
    {
      DeclaredOnce(members, steps[0].name, i, j);
    }
  }

  lemma InterfaceMissing(f: nat, w: World, file: string, id: Id, steps: seq<Step>, seen: set<Key>, rd: Reading,
          k: nat, names: set<string>)
    requires steps != [] && id in w.decls && w.decls[id].Interface? && k > 0
    requires LegibleWorld(w, names) && Named(steps, names)
    requires LookupInterface(f, w, file, id, steps, seen).Out?
    requires LookupInterface(f, w, file, id, steps, seen).answer == Missing
    ensures !Has(rd, k, w, file, DeclNode(id), steps)
    decreases f, 3
  {
    var d := w.decls[id];
    SameMember(d.members, steps[0].name, names);
    match FirstProp(d.members, steps[0].name)
    case Some(i) =>
      MembersMissing(f, w, file, DeclNode(id), d.members, i, steps, seen, rd, k - 1, names);
    case None =>
      var targets := BaseTargets(w, file, d.bases);
      AnswerCount(f, w, targets, steps, seen);
      forall j | 0 <= j < |d.bases|
        ensures !BaseHas(rd, k - 1, w, file, DeclNode(id), d.bases[j], steps)
      {
        CombineMissing(LookupTargets(f, w, targets, steps, seen).answers, j);
        BaseMissing(f, w, file, id, d.bases, steps, seen, rd, k - 1, j, names);
      }
  }

  lemma BaseMissing(f: nat, w: World, file: string, id: Id, bases: seq<Option<string>>, steps: seq<Step>,
          seen: set<Key>, rd: Reading, k: nat, j: nat, names: set<string>)
    requires steps != [] && j < |bases| && LegibleWorld(w, names) && Named(steps, names)
    requires LookupTargets(f, w, BaseTargets(w, file, bases), steps, seen).Outs?
    requires j < |LookupTargets(f, w, BaseTargets(w, file, bases), steps, seen).answers|
    requires LookupTargets(f, w, BaseTargets(w, file, bases), steps, seen).answers[j] == Missing
    ensures !BaseHas(rd, k, w, file, DeclNode(id), bases[j], steps)
    decreases f, 1
  {
    var targets := BaseTargets(w, file, bases);
    var s := TargetAnswer(f, w, targets, steps, seen, j);
    MissingIsSound(f, w, targets[j].file, targets[j].node, steps, s, rd, k, names);
  }

  lemma PartMissing(f: nat, w: World, file: string, parts: seq<Type>, steps: seq<Step>, seen: set<Key>, rd: Reading,
          k: nat, j: nat, names: set<string>)
    requires LookupTargets(f, w, PartTargets(file, parts), steps, seen).Outs?
    requires j < |parts| && Clear(w, TypeNode(parts[j]), steps, names)
    requires j < |LookupTargets(f, w, PartTargets(file, parts), steps, seen).answers|
    requires LookupTargets(f, w, PartTargets(file, parts), steps, seen).answers[j] == Missing
    ensures !Has(rd, k, w, file, TypeNode(parts[j]), steps)
    decreases f, 1
  {
    var s := TargetAnswer(f, w, PartTargets(file, parts), steps, seen, j);
    MissingIsSound(f, w, file, TypeNode(parts[j]), steps, s, rd, k, names);
  }

  lemma PartsMissing(f: nat, w: World, file: string, ty: Type, steps: seq<Step>, seen: set<Key>, rd: Reading,
          k: nat, names: set<string>)
    requires steps != [] && k > 0 && (ty.Intersection? || ty.Union?) && Clear(w, TypeNode(ty), steps, names)
    requires LookupType(f, w, file, ty, steps, seen).Out? && LookupType(f, w, file, ty, steps, seen).answer == Missing
    ensures !Has(rd, k, w, file, TypeNode(ty), steps)
    decreases f, 2
  {
    var rs := LookupTargets(f, w, PartTargets(file, ty.parts), steps, seen).answers;
    AnswerCount(f, w, PartTargets(file, ty.parts), steps, seen);
    if ty.Intersection? {
      forall j | 0 <= j < |ty.parts|
        ensures !Has(rd, k - 1, w, file, TypeNode(ty.parts[j]), steps)
      {
        CombineMissing(rs, j);
        PartMissing(f, w, file, ty.parts, steps, seen, rd, k - 1, j, names);
      }
    } else {
      var j := rd.branch(file, TypeNode(ty), steps) % |ty.parts|;
      assert rs[j] in rs;
      PartMissing(f, w, file, ty.parts, steps, seen, rd, k - 1, j, names);
    }
  }

  lemma LiteralMissing(f: nat, w: World, file: string, members: seq<Prop>, steps: seq<Step>, seen: set<Key>,
          rd: Reading, k: nat, names: set<string>)
    requires steps != [] && k > 0 && Clear(w, TypeNode(TypeLiteral(members)), steps, names)
    requires LookupType(f, w, file, TypeLiteral(members), steps, seen).Out?
    requires LookupType(f, w, file, TypeLiteral(members), steps, seen).answer == Missing
    ensures !Has(rd, k, w, file, TypeNode(TypeLiteral(members)), steps)
    decreases f, 3
  {
    SameMember(members, steps[0].name, names);
    match FirstProp(members, steps[0].name)
    case Some(i) =>
      MembersMissing(f, w, file, TypeNode(TypeLiteral(members)), members, i, steps, seen, rd, k - 1, names);
    case None =>
  }

  lemma TypeMissing(f: nat, w: World, file: string, ty: Type, steps: seq<Step>, seen: set<Key>, rd: Reading,
          k: nat, names: set<string>)
    requires steps != [] && k > 0 && Clear(w, TypeNode(ty), steps, names)
    requires LookupType(f, w, file, ty, steps, seen).Out? && LookupType(f, w, file, ty, steps, seen).answer == Missing
    ensures !Has(rd, k, w, file, TypeNode(ty), steps)
    decreases f, 4
  {
    match ty {
    case TypeLiteral(members) => LiteralMissing(f, w, file, members, steps, seen, rd, k, names);
    case Intersection(_) => PartsMissing(f, w, file, ty, steps, seen, rd, k, names);
    case Union(_) => PartsMissing(f, w, file, ty, steps, seen, rd, k, names);
    case Indexed(obj, key) =>
      MissingIsSound(f, w, file, TypeNode(obj), [Member(key.value)] + steps, seen, rd, k - 1, names);
    case ArrayOf(element) =>
      MissingIsSound(f, w, file, TypeNode(element), steps[1..], seen, rd, k - 1, names);
    case Ref(head, qualified, args) =>
      if head in PASSTHROUGH && args != [] {
        MissingIsSound(f, w, file, TypeNode(args[0]), steps, seen, rd, k - 1, names);
      } else if head in ARRAYS && args != [] {
        MissingIsSound(f, w, file, TypeNode(args[0]), steps[1..], seen, rd, k - 1, names);
      } else {
        var id := Resolve(w, file, head).value;
        MissingIsSound(f, w, id.file, DeclNode(id), steps, seen, rd, k - 1, names);
      }
    case Parenthesized(inner) => MissingIsSound(f, w, file, TypeNode(inner), steps, seen, rd, k - 1, names);
    case Operator(inner) => MissingIsSound(f, w, file, TypeNode(inner), steps, seen, rd, k - 1, names);
    case OtherType =>
    }
  }

  // ---------------------------------------------------------------- termination

  /** More fuel does not change an answer. */
  lemma {:induction false} MoreFuel(f: nat, g: nat, w: World, file: string, node: Node, steps: seq<Step>,
          seen: set<Key>)
    requires f <= g && Lookup(f, w, file, node, steps, seen).Out?
    ensures Lookup(g, w, file, node, steps, seen) == Lookup(f, w, file, node, steps, seen)
    decreases f, 0
  {
    if steps != [] {
      if Guarded(w, node) {
        var seen' := seen + {(node.id, |steps|)};
        if (node.id, |steps|) !in seen {
          if w.decls[node.id].Interface? {
            MoreFuelInterface(f - 1, g - 1, w, file, node.id, steps, seen');
          } else {
            MoreFuel(f - 1, g - 1, w, file, TypeNode(w.decls[node.id].body), steps, seen');
          }
        }
      } else if node.TypeNode? {
        MoreFuelType(f - 1, g - 1, w, file, node.ty, steps, seen);
      }
    }
  }

  lemma MoreFuelProp(f: nat, g: nat, w: World, file: string, prop: Prop, steps: seq<Step>, seen: set<Key>)
    requires steps != [] && prop.Prop?
    requires f <= g && LookupProp(f, w, file, prop, steps, seen).Out?
    ensures LookupProp(g, w, file, prop, steps, seen) == LookupProp(f, w, file, prop, steps, seen)
    decreases f, 1
  {
    if |steps| > 1 && prop.ty.Some? {
      MoreFuel(f, g, w, file, TypeNode(prop.ty.value), steps[1..], seen);
    }
  }

  lemma {:induction false} MoreFuelTargets(f: nat, g: nat, w: World, targets: seq<Target>, steps: seq<Step>,
          seen: set<Key>)
    requires f <= g && LookupTargets(f, w, targets, steps, seen).Outs?
    ensures LookupTargets(g, w, targets, steps, seen) == LookupTargets(f, w, targets, steps, seen)
    decreases f, 1, |targets|
  {
    if targets != [] {
      var n := |targets| - 1;
      MoreFuelTargets(f, g, w, targets[..n], steps, seen);
      var s := LookupTargets(f, w, targets[..n], steps, seen).seen;
      if targets[n].At? {
        MoreFuel(f, g, w, targets[n].file, targets[n].node, steps, s);
      }
    }
  }

  lemma MoreFuelInterface(f: nat, g: nat, w: World, file: string, id: Id, steps: seq<Step>, seen: set<Key>)
    requires steps != [] && id in w.decls && w.decls[id].Interface?
    requires f <= g && LookupInterface(f, w, file, id, steps, seen).Out?
    ensures LookupInterface(g, w, file, id, steps, seen) == LookupInterface(f, w, file, id, steps, seen)
    decreases f, 2
  {
    var d := w.decls[id];
    if steps[0].Member? {
      match FirstProp(d.members, steps[0].name)
      case Some(i) => MoreFuelProp(f, g, w, file, d.members[i], steps, seen);
      case None => MoreFuelTargets(f, g, w, BaseTargets(w, file, d.bases), steps, seen);
    }
  }

  lemma MoreFuelType(f: nat, g: nat, w: World, file: string, ty: Type, steps: seq<Step>, seen: set<Key>)
    requires steps != []
    requires f <= g && LookupType(f, w, file, ty, steps, seen).Out?
    ensures LookupType(g, w, file, ty, steps, seen) == LookupType(f, w, file, ty, steps, seen)
    decreases f, 2
  {
    match ty
    case TypeLiteral(members) =>
      if steps[0].Member? && FirstProp(members, steps[0].name).Some? {
        MoreFuelProp(f, g, w, file, members[FirstProp(members, steps[0].name).value], steps, seen);
      }
    case Parenthesized(inner) => MoreFuel(f, g, w, file, TypeNode(inner), steps, seen);
    case Operator(inner) => MoreFuel(f, g, w, file, TypeNode(inner), steps, seen);
    case Intersection(parts) => MoreFuelTargets(f, g, w, PartTargets(file, parts), steps, seen);
    case Union(parts) => MoreFuelTargets(f, g, w, PartTargets(file, parts), steps, seen);
    case ArrayOf(element) =>
      if steps[0].Element? { MoreFuel(f, g, w, file, TypeNode(element), steps[1..], seen); }
    case Indexed(obj, key) =>
      if key.Some? { MoreFuel(f, g, w, file, TypeNode(obj), [Member(key.value)] + steps, seen); }
    case Ref(head, qualified, args) =>
      if head in PASSTHROUGH && args != [] {
        MoreFuel(f, g, w, file, TypeNode(args[0]), steps, seen);
      } else if head in ARRAYS && args != [] {
        if steps[0].Element? { MoreFuel(f, g, w, file, TypeNode(args[0]), steps[1..], seen); }
      } else if !qualified && Resolve(w, file, head).Some? {
        var id := Resolve(w, file, head).value;
        MoreFuel(f, g, w, id.file, DeclNode(id), steps, seen);
      }
    case OtherType =>
  }

  // ---------------------------------------------------------------- the walk, over the shared set

  /** The `seen` set one top-level lookup shares among all its recursive calls. */
  class Walk {
    const world: World
    var seen: set<Key>

    constructor (world: World)
      ensures this.world == world && seen == {}
    {
      this.world := world;
      seen := {};
    }

    method FindMember(members: seq<Prop>, name: string) returns (i: Option<nat>)
      ensures i == FirstProp(members, name)
    {
      for j := 0 to |members|
        invariant forall k :: 0 <= k < j ==> !(members[k].Prop? && members[k].written == name)
      {
        if members[j].Prop? && members[j].written == name {
          assert Writes(members, name, j);
          return Some(j);
        }
      }
      return None;
    }

    /** `None`: the walk has not come to an answer within the fuel. */
    method LookupPath(f: nat, file: string, node: Node, steps: seq<Step>) returns (r: Option<PathLookup>)
      modifies this
      ensures Answers(Lookup(f, world, file, node, steps, old(seen)), r, seen)
      decreases f, 0
    {
      if steps == [] {
        return Some(Found);
      }
      if f == 0 {
        return None;
      }
      if node.DeclNode? {
        if node.id !in world.decls || world.decls[node.id].Enum? {
          return Some(Unknown);
        }
        var key := (node.id, |steps|);
        if key in seen {
          return Some(Unknown);
        }
        seen := seen + {key};
        if world.decls[node.id].Interface? {
          r := VisitInterface(f - 1, file, node.id, steps);
        } else {
          r := LookupPath(f - 1, file, TypeNode(world.decls[node.id].body), steps);
        }
      } else {
        r := VisitType(f - 1, file, node.ty, steps);
      }
    }

    method VisitProp(f: nat, file: string, prop: Prop, steps: seq<Step>) returns (r: Option<PathLookup>)
      requires steps != [] && prop.Prop?
      modifies this
      ensures Answers(LookupProp(f, world, file, prop, steps, old(seen)), r, seen)
      decreases f, 1
    {
      if |steps| == 1 {
        r := Some(Found);
      } else if prop.ty.Some? {
        r := LookupPath(f, file, TypeNode(prop.ty.value), steps[1..]);
      } else {
        r := Some(Unknown);
      }
    }

    method VisitInterface(f: nat, file: string, id: Id, steps: seq<Step>) returns (r: Option<PathLookup>)
      requires steps != [] && id in world.decls && world.decls[id].Interface?
      modifies this
      ensures Answers(LookupInterface(f, world, file, id, steps, old(seen)), r, seen)
      decreases f, 3
    {
      var d := world.decls[id];
      if steps[0].Element? {
        return Some(Unknown);
      }
      var i := FindMember(d.members, steps[0].name);
      if i.Some? {
        r := VisitProp(f, file, d.members[i.value], steps);
      } else {
        var rs := VisitTargets(f, BaseTargets(world, file, d.bases), steps);
        r := if rs.Some? then Some(Combine(rs.value)) else None;
      }
    }

    /** The loop over bases, or over the parts of a union or intersection. */
    method VisitTargets(f: nat, targets: seq<Target>, steps: seq<Step>) returns (rs: Option<seq<PathLookup>>)
      modifies this
      ensures match LookupTargets(f, world, targets, steps, old(seen))
              case Outs(answers, s) => rs == Some(answers) && seen == s
              case StillRunning => rs == None
      decreases f, 2
    {
      var answers := [];
      for i := 0 to |targets|
        invariant LookupTargets(f, world, targets[..i], steps, old(seen)) == Outs(answers, seen)
      {
        assert targets[..i + 1][..i] == targets[..i];
        var r := Some(Unknown);
        if targets[i].At? {
          r := LookupPath(f, targets[i].file, targets[i].node, steps);
        }
        if r == None {
          NeverReturns(f, world, targets, i, steps, old(seen));
          return None;
        }
        answers := answers + [r.value];
      }
      assert targets[..|targets|] == targets;
      return Some(answers);
    }

    method VisitType(f: nat, file: string, ty: Type, steps: seq<Step>) returns (r: Option<PathLookup>)
      requires steps != []
      modifies this
      ensures Answers(LookupType(f, world, file, ty, steps, old(seen)), r, seen)
      decreases f, 3
    {
      match ty
      case TypeLiteral(members) =>
        if steps[0].Element? {
          return Some(Unknown);
        }
        var i := FindMember(members, steps[0].name);
        if i.None? {
          return Some(Missing);
        }
        r := VisitProp(f, file, members[i.value], steps);
      case Parenthesized(inner) => r := LookupPath(f, file, TypeNode(inner), steps);
      case Intersection(parts) =>
        var rs := VisitTargets(f, PartTargets(file, parts), steps);
        r := if rs.Some? then Some(Combine(rs.value)) else None;
      case Union(parts) =>
        var rs := VisitTargets(f, PartTargets(file, parts), steps);
        r := if rs.Some? then Some(Agree(rs.value)) else None;
      case ArrayOf(element) =>
        if steps[0].Member? {
          return Some(Unknown);
        }
        r := LookupPath(f, file, TypeNode(element), steps[1..]);
      case Operator(inner) => r := LookupPath(f, file, TypeNode(inner), steps);
      case Indexed(obj, key) =>
        if key.None? {
          return Some(Unknown);
        }
        r := LookupPath(f, file, TypeNode(obj), [Member(key.value)] + steps);
      case Ref(head, qualified, args) =>
        if head in PASSTHROUGH && args != [] {
          r := LookupPath(f, file, TypeNode(args[0]), steps);
        } else if head in ARRAYS && args != [] {
          if steps[0].Member? {
            return Some(Unknown);
          }
          r := LookupPath(f, file, TypeNode(args[0]), steps[1..]);
        } else if qualified || Resolve(world, file, head).None? {
          r := Some(Unknown);
        } else {
          var id := Resolve(world, file, head).value;
          r := LookupPath(f, id.file, DeclNode(id), steps);
        }
      case OtherType => r := Some(Unknown);
    }
  }

  predicate Answers(o: Outcome, r: Option<PathLookup>, seen: set<Key>) {
    match o
    case Out(a, s) => r == Some(a) && seen == s
    case Running => r == None
  }

  lemma {:induction false} NeverReturns(f: nat, w: World, targets: seq<Target>, i: nat, steps: seq<Step>,
          seen: set<Key>)
    requires i < |targets| && LookupTargets(f, w, targets[..i + 1], steps, seen).StillRunning?
    ensures LookupTargets(f, w, targets, steps, seen).StillRunning?
    decreases |targets| - i
  {
    if i + 1 == |targets| {
      assert targets[..i + 1] == targets;
    } else {
      assert targets[..i + 2][..i + 1] == targets[..i + 1];
      NeverReturns(f, w, targets, i + 1, steps, seen);
    }
  }
}
