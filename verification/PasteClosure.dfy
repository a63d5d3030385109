/** The paste worklist of `collectConfigCatalog` in `scripts/gen-config-catalog.ts`: from a config
    type's name, paste every package-local declaration it needs and record every import. */
module PasteClosure {
  import Counting

  /** A declaration by file and position: what the script's source pointer identifies. */
  datatype Decl = Decl(file: string, pos: nat)

  /** What `resolveTypeName` answers. */
  datatype Resolution = Local(decl: Decl) | Imported(imported: string, specifier: string) | Nowhere

  /** `mentions` is what `collectTypeNames` finds in a declaration; `names` what a file's names mean. */
  datatype World = World(mentions: map<Decl, seq<string>>, names: map<(string, string), Resolution>,
      globals: set<string>)

  /** A type name as some file uses it: one queue item. */
  datatype Mention = Mention(name: string, file: string)

  function Resolve(w: World, m: Mention): Resolution {
    if (m.file, m.name) !in w.names then Nowhere
    else
      var r := w.names[(m.file, m.name)];
      if r.Local? && r.decl !in w.mentions then Nowhere else r
  }

  /** Using `m` makes its declaration's own mentions part of the paste. */
  predicate Leads(w: World, m: Mention, n: Mention) {
    && Resolve(w, m).Local?
    && n.file == Resolve(w, m).decl.file
    && n.name in w.mentions[Resolve(w, m).decl]
    && n.name !in w.globals
  }

  predicate Link(w: World, p: seq<Mention>, i: nat)
    requires i + 1 < |p|
  {
    Leads(w, p[i], p[i + 1])
  }

  ghost predicate Chain(w: World, p: seq<Mention>) {
    p != [] && forall i {:trigger Link(w, p, i)} :: 0 <= i < |p| - 1 ==> Link(w, p, i)
  }

  /** The closure a reader of the paste meets, starting from the config type. */
  ghost predicate Reachable(w: World, root: Mention, m: Mention) {
    exists p :: Chain(w, p) && p[0] == root && p[|p| - 1] == m
  }

  /** Every name in the closure resolves, to one thing wherever it is used, the config type locally. */
  ghost predicate Unambiguous(w: World, root: Mention) {
    && (forall m :: Reachable(w, root, m) ==> !Resolve(w, m).Nowhere?)
    && (forall m :: Reachable(w, root, m) && m.name == root.name ==> Resolve(w, m).Local?)
    && (forall m, n :: Reachable(w, root, m) && Reachable(w, root, n) && m.name == n.name ==>
        Resolve(w, m) == Resolve(w, n))
  }

  lemma ReachableNext(w: World, root: Mention, m: Mention, n: Mention)
    requires Reachable(w, root, m) && Leads(w, m, n)
    ensures Reachable(w, root, n)
  {
    var p :| Chain(w, p) && p[0] == root && p[|p| - 1] == m;
    var q := p + [n];
    forall i | 0 <= i < |q| - 1
      ensures Link(w, q, i)
    {
      if i < |p| - 1 {
        assert Link(w, p, i);
      }
    }
    assert Chain(w, q) && q[0] == root && q[|q| - 1] == n;
  }

  /** A set with the root that is closed under mentioning holds the whole closure. */
  lemma ReachableInside(w: World, root: Mention, s: set<Mention>, m: Mention)
    requires root in s && forall a, b :: a in s && Leads(w, a, b) ==> b in s
    requires Reachable(w, root, m)
    ensures m in s
  {
    var p :| Chain(w, p) && p[0] == root && p[|p| - 1] == m;
    var i := 0;
    while i < |p| - 1
      invariant 0 <= i < |p| && p[i] in s
    {
      assert Link(w, p, i);
      i := i + 1;
    }
  }

  // ---------------------------------------------------------------- the worklist's state

  datatype Violation =
    | Unresolved(name: string)
    | ConfigTypeImported(name: string)
    | DeclaredAndImported(name: string)
    | TwoImports(name: string)
    | TwoDeclarations(name: string)

  datatype State = State(
    queue: seq<Mention>,
    pasted: map<string, Decl>,
    refs: map<string, Resolution>,
    pastes: seq<Decl>,
    violations: seq<Violation>)

  /** A handled mention left its trace: pasted or recorded, under its own resolution. */
  ghost predicate Handled(w: World, s: State, m: Mention) {
    match Resolve(w, m)
    case Local(d) => m.name in s.pasted && s.pasted[m.name] == d
    case Imported(_, _) => m.name in s.refs && s.refs[m.name] == Resolve(w, m)
    case Nowhere => false
  }

  ghost predicate Backed(w: World, root: Mention, name: string, r: Resolution) {
    exists m :: Reachable(w, root, m) && m.name == name && Resolve(w, m) == r
  }

  ghost predicate Queued(w: World, s: State, handled: set<Mention>, d: Decl)
    requires d in w.mentions
  {
    forall n :: n in w.mentions[d] && n !in w.globals ==> Mention(n, d.file) in s.queue || Mention(n, d.file) in handled
  }

  /** Every pasted declaration is some closure mention's, every recorded import too. */
  ghost predicate Justified(w: World, root: Mention, pasted: map<string, Decl>, refs: map<string, Resolution>) {
    && (forall n :: n in pasted ==> pasted[n] in w.mentions && Backed(w, root, n, Local(pasted[n])))
    && (forall n :: n in refs ==> refs[n].Imported? && Backed(w, root, n, refs[n]))
  }

  ghost predicate Tables(w: World, root: Mention, s: State) {
    && s.pasted.Keys !! s.refs.Keys
    && Justified(w, root, s.pasted, s.refs)
    && (forall d :: d in s.pastes <==> d in s.pasted.Values)
    && root.name !in s.refs
  }

  ghost predicate Inv(w: World, root: Mention, s: State, handled: set<Mention>) {
    && Tables(w, root, s)
    && Pending(w, root, s, handled)
    && (s.violations == [] ==> forall m :: m in handled ==> Handled(w, s, m))
    && (s.violations != [] ==> !Unambiguous(w, root))
  }

  function NamesOf(w: World): set<string> {
    set d, n | d in w.mentions && n in w.mentions[d] :: n
  }

  /** Names that may still be pasted. */
  function Unpasted(w: World, root: Mention, s: State): set<string> {
    NamesOf(w) + {root.name} - s.pasted.Keys
  }

  // ---------------------------------------------------------------- one queue item

  /** `names` with the globals dropped, each to be looked up from the declaration's file. */
  function Mentions(w: World, names: seq<string>, file: string): (q: seq<Mention>)
    ensures forall m :: m in q <==> m.file == file && m.name in names && m.name !in w.globals
  {
    if names == [] then [] else
      var rest := Mentions(w, names[1..], file);
      assert names == [names[0]] + names[1..];
      if names[0] in w.globals then rest else [Mention(names[0], file)] + rest
  }

  function Report(s: State, v: Violation): (t: State)
    ensures t.violations != s.violations
  {
    assert |s.violations + [v]| == |s.violations| + 1;
    s.(violations := s.violations + [v])
  }

  /** The loop body after `queue.shift()`. */
  function Handle(w: World, root: Mention, s: State, m: Mention): State {
    match Resolve(w, m)
    case Nowhere => Report(s, Unresolved(m.name))
    case Imported(imported, specifier) =>
      if m.name == root.name then Report(s, ConfigTypeImported(m.name))
      else if m.name in s.pasted then Report(s, DeclaredAndImported(m.name))
      else if m.name in s.refs && s.refs[m.name] != Resolve(w, m) then Report(s, TwoImports(m.name))
      else s.(refs := s.refs[m.name := Resolve(w, m)])
    case Local(d) =>
      if m.name in s.pasted then
        if s.pasted[m.name] == d then s else Report(s, TwoDeclarations(m.name))
      else if m.name in s.refs then Report(s, DeclaredAndImported(m.name))
      else
        State(s.queue + Mentions(w, w.mentions[d], d.file), s.pasted[m.name := d], s.refs, s.pastes + [d], s.violations)
  }

  lemma Ambiguity(w: World, root: Mention, m: Mention, name: string, r: Resolution)
    requires Reachable(w, root, m) && m.name == name && Backed(w, root, name, r) && Resolve(w, m) != r
    ensures !Unambiguous(w, root)
  {
  }

  /** Each report is a real ambiguity of the closure. */
  lemma ReportsAreReal(w: World, root: Mention, s: State, m: Mention)
    requires Tables(w, root, s) && Reachable(w, root, m)
    ensures Handle(w, root, s, m).violations != s.violations ==> !Unambiguous(w, root)
  {
    match Resolve(w, m)
    case Nowhere =>
    case Imported(_, _) =>
      if m.name != root.name {
        if m.name in s.pasted {
          Ambiguity(w, root, m, m.name, Local(s.pasted[m.name]));
        } else if m.name in s.refs && s.refs[m.name] != Resolve(w, m) {
          Ambiguity(w, root, m, m.name, s.refs[m.name]);
        }
      }
    case Local(d) =>
      if m.name in s.pasted {
        if s.pasted[m.name] != d {
          Ambiguity(w, root, m, m.name, Local(s.pasted[m.name]));
        }
      } else if m.name in s.refs {
        Ambiguity(w, root, m, m.name, s.refs[m.name]);
      }
  }

  ghost predicate Uses(w: World, root: Mention, name: string, r: Resolution, q: Resolution) {
    Backed(w, root, name, r) && Backed(w, root, name, q)
  }

  /** The closure has what the violation says of it. */
  ghost predicate Real(w: World, root: Mention, v: Violation) {
    match v
    case Unresolved(n) => Backed(w, root, n, Nowhere)
    case ConfigTypeImported(n) => n == root.name && exists r: Resolution :: r.Imported? && Backed(w, root, n, r)
    case DeclaredAndImported(n) =>
      exists r: Resolution, q: Resolution :: r.Local? && q.Imported? && Uses(w, root, n, r, q)
    case TwoImports(n) =>
      exists r: Resolution, q: Resolution :: r.Imported? && q.Imported? && r != q && Uses(w, root, n, r, q)
    case TwoDeclarations(n) =>
      exists r: Resolution, q: Resolution :: r.Local? && q.Local? && r != q && Uses(w, root, n, r, q)
  }

  ghost predicate AllReal(w: World, root: Mention, s: State) {
    forall v :: v in s.violations ==> Real(w, root, v)
  }

  lemma NewReport(w: World, root: Mention, s: State, v: Violation)
    requires AllReal(w, root, s) && Real(w, root, v)
    ensures AllReal(w, root, Report(s, v))
  {
  }

  lemma ReportsSay(w: World, root: Mention, s: State, m: Mention)
    requires Tables(w, root, s) && Reachable(w, root, m) && AllReal(w, root, s)
    ensures AllReal(w, root, Handle(w, root, s, m))
  {
    hide AllReal, Reachable;
    var r := Resolve(w, m);
    assert Backed(w, root, m.name, r);
    var t := Handle(w, root, s, m);
    if t.violations == s.violations {
      SameReports(w, root, s, t);
    } else if m.name in s.pasted {
      var q := Local(s.pasted[m.name]);
      assert Uses(w, root, m.name, q, r) && Uses(w, root, m.name, r, q);
      NewReport(w, root, s, t.violations[|s.violations|]);
    } else if m.name in s.refs {
      var q := s.refs[m.name];
      assert Uses(w, root, m.name, r, q);
      NewReport(w, root, s, t.violations[|s.violations|]);
    } else {
      NewReport(w, root, s, t.violations[|s.violations|]);
    }
  }

  lemma SameReports(w: World, root: Mention, s: State, t: State)
    requires AllReal(w, root, s) && t.violations == s.violations
    ensures AllReal(w, root, t)
  {
  }

  lemma JustifiedDecl(w: World, root: Mention, s: State, m: Mention)
    requires Justified(w, root, s.pasted, s.refs) && Reachable(w, root, m) && Resolve(w, m).Local?
    ensures Justified(w, root, s.pasted[m.name := Resolve(w, m).decl], s.refs)
  {
  }

  lemma JustifiedRef(w: World, root: Mention, s: State, m: Mention)
    requires Justified(w, root, s.pasted, s.refs) && Reachable(w, root, m) && Resolve(w, m).Imported?
    ensures Justified(w, root, s.pasted, s.refs[m.name := Resolve(w, m)])
  {
  }

  lemma PastesKept(s: State, name: string, d: Decl)
    requires name !in s.pasted && forall x :: x in s.pastes <==> x in s.pasted.Values
    ensures forall x :: x in s.pastes + [d] <==> x in s.pasted[name := d].Values
  {
    var more := s.pasted[name := d];
    forall x
      ensures x in s.pastes + [d] <==> x in more.Values
    {
      assert more[name] == d;
      if x in s.pasted.Values {
        var n :| n in s.pasted && s.pasted[n] == x;
        assert more[n] == x;
      }
    }
  }

  lemma TablesKept(w: World, root: Mention, s: State, m: Mention)
    requires Tables(w, root, s) && Reachable(w, root, m)
    ensures Tables(w, root, Handle(w, root, s, m))
  {
    hide Justified, Reachable;
    var t := Handle(w, root, s, m);
    match Resolve(w, m)
    case Nowhere =>
    case Imported(_, _) =>
      JustifiedRef(w, root, s, m);
    case Local(d) =>
      if m.name !in s.pasted && m.name !in s.refs {
        JustifiedDecl(w, root, s, m);
        PastesKept(s, m.name, d);
      }
  }

  lemma HandledKept(w: World, root: Mention, s: State, m: Mention, x: Mention)
    requires Handled(w, s, x)
    ensures Handled(w, Handle(w, root, s, m), x)
  {
  }

  lemma HandlesItem(w: World, root: Mention, s: State, m: Mention)
    requires Handle(w, root, s, m).violations == s.violations
    ensures Handled(w, Handle(w, root, s, m), m)
  {
  }

  /** One round keeps the invariant; `m` has moved from the queue to the handled mentions. */
  lemma RoundKeeps(w: World, root: Mention, s: State, rest: seq<Mention>, m: Mention, handled: set<Mention>)
    requires Inv(w, root, s, handled) && s.queue == [m] + rest
    ensures Inv(w, root, Handle(w, root, s.(queue := rest), m), handled + {m})
  {
    hide Reachable, Unambiguous, Justified, Tables, Handled;
    var s0 := s.(queue := rest);
    var t := Handle(w, root, s0, m);
    TablesRest(w, root, s, rest);
    TablesKept(w, root, s0, m);
    ReportsAreReal(w, root, s0, m);
    QueueKept(w, root, s, rest, m, handled);
    if t.violations == [] {
      forall x | x in handled
        ensures Handled(w, t, x)
      {
        assert Handled(w, s, x);
        HandledRest(w, s, rest, x);
        HandledKept(w, root, s0, m, x);
      }
      NoReport(w, root, s0, m);
      HandlesItem(w, root, s0, m);
    }
  }

  lemma NoReport(w: World, root: Mention, s: State, m: Mention)
    requires Handle(w, root, s, m).violations == []
    ensures s.violations == []
  {
  }

  lemma TablesRest(w: World, root: Mention, s: State, rest: seq<Mention>)
    requires Tables(w, root, s)
    ensures Tables(w, root, s.(queue := rest))
  {
  }

  lemma HandledRest(w: World, s: State, rest: seq<Mention>, m: Mention)
    requires Handled(w, s, m)
    ensures Handled(w, s.(queue := rest), m)
  {
  }

  /** What waits in the queue or was handled: all of it reachable, none of it lost. */
  ghost predicate Pending(w: World, root: Mention, s: State, handled: set<Mention>) {
    && (forall n :: n in s.pasted ==> s.pasted[n] in w.mentions)
    && (forall m :: m in s.queue ==> Reachable(w, root, m))
    && (forall m :: m in handled ==> Reachable(w, root, m))
    && (root in s.queue || root in handled)
    && (forall n :: n in s.pasted ==> Queued(w, s, handled, s.pasted[n]))
  }

  lemma QueueKept(w: World, root: Mention, s: State, rest: seq<Mention>, m: Mention, handled: set<Mention>)
    requires Pending(w, root, s, handled) && s.queue == [m] + rest
    ensures Pending(w, root, Handle(w, root, s.(queue := rest), m), handled + {m})
  {
    hide Reachable;
    var t := Handle(w, root, s.(queue := rest), m);
    forall x | x in t.queue
      ensures Reachable(w, root, x)
    {
      if x !in rest {
        ReachableNext(w, root, m, x);
      }
    }
    forall n | n in t.pasted
      ensures t.pasted[n] in w.mentions && Queued(w, t, handled + {m}, t.pasted[n])
    {
      if n in s.pasted && s.pasted[n] == t.pasted[n] {
        assert Queued(w, s, handled, s.pasted[n]);
        assert forall x :: x in s.queue ==> x == m || x in rest;
      }
    }
  }

  // ---------------------------------------------------------------- the whole worklist

  /** Every queued name occurs in some declaration or is the root's. */
  ghost predicate KnownNames(w: World, root: Mention, queue: seq<Mention>) {
    forall m :: m in queue ==> m.name in NamesOf(w) + {root.name}
  }

  /** A round that pastes has one name fewer to paste; any other leaves a shorter queue. */
  lemma RoundProgress(w: World, root: Mention, s: State, m: Mention)
    requires KnownNames(w, root, [m] + s.queue)
    ensures var t := Handle(w, root, s, m);
            && KnownNames(w, root, t.queue)
            && Unpasted(w, root, t) <= Unpasted(w, root, s)
            && (Unpasted(w, root, t) == Unpasted(w, root, s) ==> t.queue == s.queue)
  {
    var t := Handle(w, root, s, m);
    assert m in [m] + s.queue;
    assert forall x :: x in s.queue ==> x in [m] + s.queue;
    if t.queue != s.queue {
      assert m.name in Unpasted(w, root, s) && m.name !in Unpasted(w, root, t);
    }
  }

  /** What a finished worklist without violations holds: exactly the closure, each name once. */
  ghost predicate Complete(w: World, root: Mention, s: State) {
    && (forall m :: Reachable(w, root, m) ==> Handled(w, s, m))
    && s.pasted.Keys !! s.refs.Keys
    && (forall n :: n in s.pasted ==> Backed(w, root, n, Local(s.pasted[n])))
    && (forall n :: n in s.refs ==> Backed(w, root, n, s.refs[n]))
    && (forall d :: d in s.pastes <==> d in s.pasted.Values)
    && root.name in s.pasted
  }

  lemma CompleteIsUnambiguous(w: World, root: Mention, s: State)
    requires Complete(w, root, s) && root.name !in s.refs
    ensures Unambiguous(w, root)
  {
  }

  lemma AllHandled(w: World, root: Mention, s: State, handled: set<Mention>)
    requires Inv(w, root, s, handled) && s.queue == [] && s.violations == []
    ensures Complete(w, root, s) && Unambiguous(w, root)
  {
    assert root in handled;
    forall a, b | a in handled && Leads(w, a, b)
      ensures b in handled
    {
      assert Handled(w, s, a);
      assert Queued(w, s, handled, s.pasted[a.name]);
    }
    forall m | Reachable(w, root, m)
      ensures Handled(w, s, m)
    {
      ReachableInside(w, root, handled, m);
    }
    assert Handled(w, s, root);
    CompleteIsUnambiguous(w, root, s);
  }

  lemma WhenDone(w: World, root: Mention, s: State, handled: set<Mention>)
    requires Inv(w, root, s, handled) && s.queue == []
    ensures s.violations == [] <==> Unambiguous(w, root)
    ensures s.violations == [] ==> Complete(w, root, s)
  {
    hide Unambiguous, Tables, Pending, Handled, Complete;
    if s.violations == [] {
      AllHandled(w, root, s, handled);
    }
  }

  // ---------------------------------------------------------------- the order of the pastes

  /** Where a name is mentioned: the position of a paste and a position in what it mentions. The config
      type counts as mentioned before all pastes. */
  datatype Place = Place(paste: int, pos: int)

  predicate Earlier(a: Place, b: Place) {
    a.paste < b.paste || (a.paste == b.paste && a.pos < b.pos)
  }

  predicate MentionedAt(w: World, root: Mention, pastes: seq<Decl>, m: Mention, at: Place) {
    if at.paste == -1 then at.pos == 0 && m == root
    else
      && 0 <= at.paste < |pastes| && pastes[at.paste] in w.mentions
      && 0 <= at.pos < |w.mentions[pastes[at.paste]]|
      && m == Mention(w.mentions[pastes[at.paste]][at.pos], pastes[at.paste].file) && m.name !in w.globals
  }

  /** `at` is the first place that mentions the name of `m`, and mentions it as `m`. */
  ghost predicate FirstMention(w: World, root: Mention, pastes: seq<Decl>, m: Mention, at: Place) {
    && MentionedAt(w, root, pastes, m, at)
    && forall n, b :: MentionedAt(w, root, pastes, n, b) && n.name == m.name ==> b == at || Earlier(at, b)
  }

  /** One paste for each pasted name, in the order in which the names are first mentioned: `trail` has
      the mentions that were followed, `at` their places. */
  ghost predicate Discovered(w: World, root: Mention, s: State, trail: seq<Mention>, at: seq<Place>) {
    && |trail| == |s.pastes| == |at| == |s.pasted|
    && (forall i :: 0 <= i < |trail| ==> Resolve(w, trail[i]) == Local(s.pastes[i]))
    && (forall i :: 0 <= i < |trail| ==> trail[i].name in s.pasted && s.pasted[trail[i].name] == s.pastes[i])
    && (forall i :: 0 <= i < |trail| ==> FirstMention(w, root, s.pastes, trail[i], at[i]))
    && (forall i, j :: 0 <= i < j < |trail| ==> Earlier(at[i], at[j]))
    && (forall i :: 0 <= i < |trail| ==> at[i].paste < i)
  }

  ghost predicate InDiscoveryOrder(w: World, root: Mention, s: State) {
    exists trail, at :: Discovered(w, root, s, trail, at)
  }

  /** The worklist while it runs: the queue's mentions stand at ascending places `from`, behind those of
      the trail, and a place that no longer waits there has been handled. */
  ghost predicate Waiting(w: World, root: Mention, s: State, at: seq<Place>, from: seq<Place>) {
    && |from| == |s.queue|
    && (forall x :: 0 <= x < |from| ==> MentionedAt(w, root, s.pastes, s.queue[x], from[x]))
    && (forall x, y :: 0 <= x < y < |from| ==> Earlier(from[x], from[y]))
    && (forall i, x :: 0 <= i < |at| && 0 <= x < |from| ==> Earlier(at[i], from[x]))
    && (forall m, b :: MentionedAt(w, root, s.pastes, m, b) ==> b in from || m.name in s.pasted || m.name in s.refs)
  }

  /** The places of the mentions that `Mentions` lists, for the names from position `start` on. */
  function Places(w: World, names: seq<string>, paste: int, start: int): seq<Place> {
    if names == [] then [] else
      var rest := Places(w, names[1..], paste, start + 1);
      if names[0] in w.globals then rest else [Place(paste, start)] + rest
  }

  lemma {:induction false} PlacesCount(w: World, names: seq<string>, file: string, paste: int, start: int)
    ensures |Places(w, names, paste, start)| == |Mentions(w, names, file)|
  {
    if names != [] {
      PlacesCount(w, names[1..], file, paste, start + 1);
    }
  }

  lemma {:induction false} PlaceOf(w: World, names: seq<string>, file: string, paste: int, start: int, x: nat)
    requires x < |Places(w, names, paste, start)| == |Mentions(w, names, file)|
    ensures var b := Places(w, names, paste, start)[x];
      && b.paste == paste && start <= b.pos < start + |names|
      && Mentions(w, names, file)[x] == Mention(names[b.pos - start], file)
  {
    PlacesCount(w, names[1..], file, paste, start + 1);
    if names[0] in w.globals {
      PlaceOf(w, names[1..], file, paste, start + 1, x);
    } else if x > 0 {
      PlaceOf(w, names[1..], file, paste, start + 1, x - 1);
    }
  }

  lemma {:induction false} PlacesAscend(w: World, names: seq<string>, paste: int, start: int, x: nat, y: nat)
    requires x < y < |Places(w, names, paste, start)|
    ensures Earlier(Places(w, names, paste, start)[x], Places(w, names, paste, start)[y])
  {
    if names[0] in w.globals {
      PlacesAscend(w, names[1..], paste, start + 1, x, y);
    } else if x > 0 {
      PlacesAscend(w, names[1..], paste, start + 1, x - 1, y - 1);
    } else {
      PlacesCount(w, names[1..], "", paste, start + 1);
      PlaceOf(w, names[1..], "", paste, start + 1, y - 1);
    }
  }

  lemma PlacesMatch(w: World, names: seq<string>, file: string, paste: int)
    ensures var ps, ms := Places(w, names, paste, 0), Mentions(w, names, file);
      && |ps| == |ms|
      && (forall x :: 0 <= x < |ps| ==>
          ps[x].paste == paste && 0 <= ps[x].pos < |names| && ms[x] == Mention(names[ps[x].pos], file))
      && (forall x, y :: 0 <= x < y < |ps| ==> Earlier(ps[x], ps[y]))
  {
    var ps, ms := Places(w, names, paste, 0), Mentions(w, names, file);
    PlacesCount(w, names, file, paste, 0);
    forall x | 0 <= x < |ps|
      ensures ps[x].paste == paste && 0 <= ps[x].pos < |names| && ms[x] == Mention(names[ps[x].pos], file)
    {
      PlaceOf(w, names, file, paste, 0, x);
    }
    forall x, y | 0 <= x < y < |ps|
      ensures Earlier(ps[x], ps[y])
    {
      PlacesAscend(w, names, paste, 0, x, y);
    }
  }

  lemma {:induction false} PlacesCover(w: World, names: seq<string>, paste: int, start: int, k: nat)
    requires k < |names| && names[k] !in w.globals
    ensures Place(paste, start + k) in Places(w, names, paste, start)
  {
    if k > 0 {
      PlacesCover(w, names[1..], paste, start + 1, k - 1);
    }
  }

  /** A mention at a place is still at it when more is pasted. */
  lemma MentionStays(w: World, root: Mention, pastes: seq<Decl>, d: Decl, m: Mention, b: Place)
    ensures MentionedAt(w, root, pastes, m, b) ==> MentionedAt(w, root, pastes + [d], m, b)
    ensures MentionedAt(w, root, pastes + [d], m, b) && b.paste != |pastes| ==> MentionedAt(w, root, pastes, m, b)
  {
  }

  lemma PastedPlaces(w: World, root: Mention, s: State, at: seq<Place>, from: seq<Place>, d: Decl)
    requires Waiting(w, root, s, at, from) && s.queue != [] && d in w.mentions
    ensures var from' := from[1..] + Places(w, w.mentions[d], |s.pastes|, 0);
      && (forall x, y :: 0 <= x < y < |from'| ==> Earlier(from'[x], from'[y]))
      && (forall i, x :: 0 <= i < |at| && 0 <= x < |from'| ==> Earlier((at + [from[0]])[i], from'[x]))
      && (forall x :: 0 <= x < |from'| ==> Earlier(from[0], from'[x]))
  {
    PlacesMatch(w, w.mentions[d], d.file, |s.pastes|);
    forall x | 0 <= x < |from|
      ensures from[x].paste < |s.pastes|
    {
      assert MentionedAt(w, root, s.pastes, s.queue[x], from[x]);
    }
  }

  lemma PastedMentions(w: World, root: Mention, s: State, at: seq<Place>, from: seq<Place>, d: Decl)
    requires Waiting(w, root, s, at, from) && s.queue != [] && d in w.mentions
    ensures var ms, from' := Mentions(w, w.mentions[d], d.file), from[1..] + Places(w, w.mentions[d], |s.pastes|, 0);
      && |from'| == |s.queue[1..] + ms|
      && forall x :: 0 <= x < |from'| ==> MentionedAt(w, root, s.pastes + [d], (s.queue[1..] + ms)[x], from'[x])
  {
    hide Earlier;
    var names, j := w.mentions[d], |s.pastes|;
    var more, ms := Places(w, names, j, 0), Mentions(w, names, d.file);
    PlacesMatch(w, names, d.file, j);
    forall x | 0 <= x < |from[1..] + more|
      ensures MentionedAt(w, root, s.pastes + [d], (s.queue[1..] + ms)[x], (from[1..] + more)[x])
    {
      if x < |from| - 1 {
        MentionStays(w, root, s.pastes, d, s.queue[x + 1], from[x + 1]);
      } else {
        assert ms[x - (|from| - 1)] in ms;
      }
    }
  }

  lemma PastedCovered(w: World, root: Mention, s: State, at: seq<Place>, from: seq<Place>, m: Mention, d: Decl,
          n: Mention, b: Place)
    requires Waiting(w, root, s, at, from) && s.queue != [] && s.queue[0] == m && d in w.mentions
    requires MentionedAt(w, root, s.pastes + [d], n, b)
    ensures b in from[1..] + Places(w, w.mentions[d], |s.pastes|, 0) || n.name in s.pasted || n.name in s.refs || n == m
  {
    hide Earlier;
    if b.paste == |s.pastes| {
      PlacesCover(w, w.mentions[d], |s.pastes|, 0, b.pos);
    } else {
      MentionStays(w, root, s.pastes, d, n, b);
      if b == from[0] {
        assert MentionedAt(w, root, s.pastes, s.queue[0], from[0]);
      } else if b in from {
        assert b in from[1..];
      }
    }
  }

  lemma PastedWaiting(w: World, root: Mention, s: State, at: seq<Place>, from: seq<Place>, m: Mention, d: Decl)
    requires Waiting(w, root, s, at, from) && s.queue != [] && s.queue[0] == m && Resolve(w, m) == Local(d)
    requires m.name !in s.pasted && m.name !in s.refs
    ensures var t := State(s.queue[1..] + Mentions(w, w.mentions[d], d.file), s.pasted[m.name := d], s.refs,
                           s.pastes + [d], s.violations);
      Waiting(w, root, t, at + [from[0]], from[1..] + Places(w, w.mentions[d], |s.pastes|, 0))
  {
    hide Earlier, MentionedAt, Places, Mentions;
    var t := State(s.queue[1..] + Mentions(w, w.mentions[d], d.file), s.pasted[m.name := d], s.refs,
                   s.pastes + [d], s.violations);
    PastedPlaces(w, root, s, at, from, d);
    PastedMentions(w, root, s, at, from, d);
    forall n, b | MentionedAt(w, root, t.pastes, n, b)
      ensures b in from[1..] + Places(w, w.mentions[d], |s.pastes|, 0) || n.name in t.pasted || n.name in t.refs
    {
      PastedCovered(w, root, s, at, from, m, d, n, b);
    }
  }

  lemma PastedFirst(w: World, root: Mention, s: State, at: seq<Place>, from: seq<Place>, m: Mention, d: Decl)
    requires Waiting(w, root, s, at, from) && s.queue != [] && s.queue[0] == m
    requires m.name !in s.pasted && m.name !in s.refs
    ensures FirstMention(w, root, s.pastes + [d], m, from[0]) && from[0].paste < |s.pastes|
  {
    MentionStays(w, root, s.pastes, d, m, from[0]);
    forall n, b | MentionedAt(w, root, s.pastes + [d], n, b) && n.name == m.name
      ensures b == from[0] || Earlier(from[0], b)
    {
      MentionStays(w, root, s.pastes, d, n, b);
    }
  }

  lemma StillFirst(w: World, root: Mention, pastes: seq<Decl>, d: Decl, m: Mention, at: Place)
    requires FirstMention(w, root, pastes, m, at)
    ensures FirstMention(w, root, pastes + [d], m, at)
  {
    MentionStays(w, root, pastes, d, m, at);
    forall n, b | MentionedAt(w, root, pastes + [d], n, b) && n.name == m.name
      ensures b == at || Earlier(at, b)
    {
      MentionStays(w, root, pastes, d, n, b);
    }
  }

  lemma PastedDiscovered(w: World, root: Mention, s: State, trail: seq<Mention>, at: seq<Place>, from: seq<Place>,
          m: Mention, d: Decl, queue: seq<Mention>)
    requires Discovered(w, root, s, trail, at) && Waiting(w, root, s, at, from) && s.queue != [] && s.queue[0] == m
    requires m.name !in s.pasted && m.name !in s.refs && Resolve(w, m) == Local(d)
    ensures Discovered(w, root, State(queue, s.pasted[m.name := d], s.refs, s.pastes + [d], s.violations),
                       trail + [m], at + [from[0]])
  {
    hide FirstMention, Resolve;
    PastedFirst(w, root, s, at, from, m, d);
    forall i | 0 <= i < |trail|
      ensures FirstMention(w, root, s.pastes + [d], trail[i], at[i])
    {
      StillFirst(w, root, s.pastes, d, trail[i], at[i]);
    }
  }

  lemma OnePlace(w: World, root: Mention, pastes: seq<Decl>, m: Mention, n: Mention, b: Place)
    requires MentionedAt(w, root, pastes, m, b) && MentionedAt(w, root, pastes, n, b)
    ensures m == n
  {
  }

  lemma NothingPasted(w: World, root: Mention, s: State, rest: seq<Mention>, at: seq<Place>, from: seq<Place>,
          m: Mention, refs: map<string, Resolution>)
    requires Waiting(w, root, s, at, from) && s.queue == [m] + rest
    requires s.refs.Keys <= refs.Keys && (m.name in s.pasted || m.name in refs)
    ensures Waiting(w, root, State(rest, s.pasted, refs, s.pastes, s.violations), at, from[1..])
  {
    hide Earlier;
    forall n, b | MentionedAt(w, root, s.pastes, n, b)
      ensures b in from[1..] || n.name in s.pasted || n.name in refs
    {
      if b == from[0] {
        assert MentionedAt(w, root, s.pastes, s.queue[0], from[0]);
        OnePlace(w, root, s.pastes, n, m, b);
      } else if b in from {
        var x :| 0 <= x < |from| && from[x] == b;
        assert from[1..][x - 1] == b;
      }
    }
  }

  /** One round keeps the pastes in the order of first mentions. */
  lemma RoundOrders(w: World, root: Mention, s: State, rest: seq<Mention>, m: Mention, trail: seq<Mention>,
          at: seq<Place>, from: seq<Place>)
    returns (trail': seq<Mention>, at': seq<Place>, from': seq<Place>)
    requires s.queue == [m] + rest && Discovered(w, root, s, trail, at) && Waiting(w, root, s, at, from)
    ensures var t := Handle(w, root, s.(queue := rest), m);
            t.violations == s.violations ==> Discovered(w, root, t, trail', at') && Waiting(w, root, t, at', from')
  {
    hide Waiting, Discovered, MentionedAt, Places;
    trail', at', from' := trail, at, from;
    match Resolve(w, m)
    case Nowhere =>
    case Imported(_, _) =>
      var t := Handle(w, root, s.(queue := rest), m);
      if t.violations == s.violations {
        NothingPasted(w, root, s, rest, at, from, m, t.refs);
        from' := AfterFirst(w, root, s, at, from);
        SameDiscovery(w, root, s, t, trail, at);
      }
    case Local(d) =>
      if m.name in s.pasted {
        NothingPasted(w, root, s, rest, at, from, m, s.refs);
        from' := AfterFirst(w, root, s, at, from);
        SameDiscovery(w, root, s, s.(queue := rest), trail, at);
      } else if m.name !in s.refs {
        WaitingSome(w, root, s, at, from);
        PastedWaiting(w, root, s, at, from, m, d);
        PastedDiscovered(w, root, s, trail, at, from, m, d, rest + Mentions(w, w.mentions[d], d.file));
        assert s.queue[1..] == rest;
        trail', at' := trail + [m], at + [from[0]];
        from' := from[1..] + Places(w, w.mentions[d], |s.pastes|, 0);
      }
  }

  lemma WaitingSome(w: World, root: Mention, s: State, at: seq<Place>, from: seq<Place>)
    requires Waiting(w, root, s, at, from)
    ensures |from| == |s.queue|
  {
  }

  lemma AfterFirst(w: World, root: Mention, s: State, at: seq<Place>, from: seq<Place>) returns (rest: seq<Place>)
    requires Waiting(w, root, s, at, from) && s.queue != []
    ensures from != [] && rest == from[1..]
  {
    rest := from[1..];
  }

  lemma SameDiscovery(w: World, root: Mention, s: State, t: State, trail: seq<Mention>, at: seq<Place>)
    requires Discovered(w, root, s, trail, at) && t.pastes == s.pastes && t.pasted == s.pasted
    ensures Discovered(w, root, t, trail, at)
  {
  }

  lemma StartOrdered(w: World, root: Mention)
    ensures Discovered(w, root, State([root], map[], map[], [], []), [], [])
    ensures Waiting(w, root, State([root], map[], map[], [], []), [], [Place(-1, 0)])
  {
  }

  lemma MentionsSnoc(w: World, names: seq<string>, n: string, file: string)
    ensures Mentions(w, names + [n], file) ==
      Mentions(w, names, file) + if n in w.globals then [] else [Mention(n, file)]
  {
    if names != [] {
      assert (names + [n])[1..] == names[1..] + [n];
      MentionsSnoc(w, names[1..], n, file);
    }
  }

  /** The loop body, on the script's own variables. */
  method HandleItem(w: World, root: Mention, s: State, item: Mention) returns (t: State)
    ensures t == Handle(w, root, s, item)
  {
    var State(queue, pasted, refs, pastes, violations) := s;
    var name := item.name;
    var resolved := Resolve(w, item);
    if resolved.Nowhere? {
      violations := violations + [Unresolved(name)];
    } else if resolved.Imported? {
      if name == root.name {
        violations := violations + [ConfigTypeImported(name)];
      } else if name in pasted {
        violations := violations + [DeclaredAndImported(name)];
      } else if name in refs && refs[name] != resolved {
        violations := violations + [TwoImports(name)];
      } else {
        refs := refs[name := resolved];
      }
    } else if name in pasted {
      if pasted[name] != resolved.decl {
        violations := violations + [TwoDeclarations(name)];
      }
    } else if name in refs {
      violations := violations + [DeclaredAndImported(name)];
    } else {
      var decl := resolved.decl;
      pasted := pasted[name := decl];
      pastes := pastes + [decl];
      var names := w.mentions[decl];
      for i := 0 to |names|
        invariant queue == s.queue + Mentions(w, names[..i], decl.file)
      {
        MentionsSnoc(w, names[..i], names[i], decl.file);
        assert names[..i + 1] == names[..i] + [names[i]];
        if names[i] !in w.globals {
          queue := queue + [Mention(names[i], decl.file)];
        }
      }
      assert names[..|names|] == names;
    }
    t := State(queue, pasted, refs, pastes, violations);
  }

  /** The worklist reports nothing exactly when the closure can be pasted unambiguously, and then
      it holds exactly that closure. */
  method PasteWorklist(w: World, root: Mention) returns (s: State)
    ensures s.queue == []
    ensures s.violations == [] <==> Unambiguous(w, root)
    ensures s.violations == [] ==> Complete(w, root, s) && InDiscoveryOrder(w, root, s)
    ensures AllReal(w, root, s)
  {
    hide AllReal, Reachable, Unambiguous, Inv, Handle, Complete, KnownNames, Unpasted, Discovered, Waiting;
    s := State([root], map[], map[], [], []);
    ghost var handled: set<Mention> := {};
    ghost var trail: seq<Mention>, at: seq<Place>, from := [], [], [Place(-1, 0)];
    StartHolds(w, root);
    StartOrdered(w, root);
    while s.queue != []
      invariant Inv(w, root, s, handled)
      invariant KnownNames(w, root, s.queue) && AllReal(w, root, s)
      invariant s.violations == [] ==> Discovered(w, root, s, trail, at) && Waiting(w, root, s, at, from)
      decreases |Unpasted(w, root, s)|, |s.queue|
    {
      var m, rest := s.queue[0], s.queue[1..];
      assert s.queue == [m] + rest;
      RoundKeeps(w, root, s, rest, m, handled);
      RoundLowers(w, root, s, rest, m);
      ReportsStay(w, root, s, rest, m);
      ReportsHold(w, root, s, rest, m, handled);
      if s.violations == [] {
        trail, at, from := RoundOrders(w, root, s, rest, m, trail, at, from);
      }
      s := HandleItem(w, root, s.(queue := rest), m);
      handled := handled + {m};
    }
    WhenDone(w, root, s, handled);
  }

  lemma ReportsHold(w: World, root: Mention, s: State, rest: seq<Mention>, m: Mention, handled: set<Mention>)
    requires Inv(w, root, s, handled) && s.queue == [m] + rest && AllReal(w, root, s)
    ensures AllReal(w, root, Handle(w, root, s.(queue := rest), m))
  {
    hide Handle, Reachable, Unambiguous, Real, Justified;
    assert m in s.queue;
    TablesRest(w, root, s, rest);
    SameReports(w, root, s, s.(queue := rest));
    ReportsSay(w, root, s.(queue := rest), m);
  }

  lemma ReportsStay(w: World, root: Mention, s: State, rest: seq<Mention>, m: Mention)
    ensures Handle(w, root, s.(queue := rest), m).violations == [] ==> s.violations == []
  {
  }

  lemma RoundLowers(w: World, root: Mention, s: State, rest: seq<Mention>, m: Mention)
    requires KnownNames(w, root, s.queue) && s.queue == [m] + rest
    ensures var t := Handle(w, root, s.(queue := rest), m);
            && KnownNames(w, root, t.queue)
            && |Unpasted(w, root, t)| <= |Unpasted(w, root, s)|
            && (|Unpasted(w, root, t)| == |Unpasted(w, root, s)| ==> |t.queue| < |s.queue|)
  {
    hide KnownNames, Handle;
    RoundProgress(w, root, s.(queue := rest), m);
    var t := Handle(w, root, s.(queue := rest), m);
    assert Unpasted(w, root, s.(queue := rest)) == Unpasted(w, root, s);
    Counting.SubsetSize(Unpasted(w, root, t), Unpasted(w, root, s));
  }

  lemma StartHolds(w: World, root: Mention)
    ensures Inv(w, root, State([root], map[], map[], [], []), {})
    ensures KnownNames(w, root, [root]) && AllReal(w, root, State([root], map[], map[], [], []))
  {
  }

  /** A pasted declaration's names are each pasted or imported, never both, and mean the same thing
      in every file of the closure that uses them. */
  lemma PastedNamesAreSettled(w: World, root: Mention, s: State, d: Decl, n: string)
    requires Complete(w, root, s) && d in s.pastes
    requires d in w.mentions && n in w.mentions[d] && n !in w.globals
    ensures (n in s.pasted) != (n in s.refs)
    ensures n in s.pasted ==> forall m :: Reachable(w, root, m) && m.name == n ==> Resolve(w, m) == Local(s.pasted[n])
    ensures n in s.refs ==> forall m :: Reachable(w, root, m) && m.name == n ==> Resolve(w, m) == s.refs[n]
  {
    var k :| k in s.pasted && s.pasted[k] == d;
    assert Backed(w, root, k, Local(d));
    var m :| Reachable(w, root, m) && m.name == k && Resolve(w, m) == Local(d);
    ReachableNext(w, root, m, Mention(n, d.file));
    assert Handled(w, s, Mention(n, d.file));
    forall x | Reachable(w, root, x) && x.name == n
      ensures if n in s.pasted then Resolve(w, x) == Local(s.pasted[n]) else n in s.refs && Resolve(w, x) == s.refs[n]
    {
      assert Handled(w, s, x);
    }
  }

  ghost predicate MentionedEarlier(w: World, pastes: seq<Decl>, i: nat)
    requires i < |pastes|
  {
    exists j, n :: 0 <= j < i && pastes[j] in w.mentions && n in w.mentions[pastes[j]]
                && Resolve(w, Mention(n, pastes[j].file)) == Local(pastes[i])
  }

  /** The config type's own declaration is pasted first, each pasted name once, and every later paste is
      mentioned by an earlier one. */
  lemma ConfigTypeComesFirst(w: World, root: Mention, s: State)
    requires Complete(w, root, s) && InDiscoveryOrder(w, root, s)
    ensures s.pastes != [] && Resolve(w, root) == Local(s.pastes[0]) && |s.pastes| == |s.pasted|
    ensures forall i :: 0 < i < |s.pastes| ==> MentionedEarlier(w, s.pastes, i)
  {
    var trail: seq<Mention>, at: seq<Place> :| Discovered(w, root, s, trail, at);
    assert root.name in s.pasted;
    assert s.pasted != map[];
    FirstIsRoot(w, root, s, trail, at);
    forall i | 0 < i < |s.pastes|
      ensures MentionedEarlier(w, s.pastes, i)
    {
      LaterIsMentioned(w, root, s, trail, at, i);
    }
  }

  lemma FirstIsRoot(w: World, root: Mention, s: State, trail: seq<Mention>, at: seq<Place>)
    requires Discovered(w, root, s, trail, at) && s.pastes != []
    ensures trail[0] == root && at[0] == Place(-1, 0)
  {
    assert FirstMention(w, root, s.pastes, trail[0], at[0]);
  }

  lemma LaterIsMentioned(w: World, root: Mention, s: State, trail: seq<Mention>, at: seq<Place>, i: nat)
    requires Discovered(w, root, s, trail, at) && 0 < i < |s.pastes|
    ensures MentionedEarlier(w, s.pastes, i)
  {
    hide Resolve;
    FirstIsRoot(w, root, s, trail, at);
    assert Earlier(at[0], at[i]) && FirstMention(w, root, s.pastes, trail[i], at[i]);
    assert trail[i].name in w.mentions[s.pastes[at[i].paste]];
  }
}
