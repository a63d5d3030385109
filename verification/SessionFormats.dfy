/** `collectSessionFormatMigrations` and `renderSessionFormatCatalog` of
    `scripts/gen-session-format-catalog.ts`: the chain of session format migrations. */
module SessionFormats {
  import opened Numbers
  import opened Options
  import opened Text
  import StableSort

  // ---------------------------------------------------------------- data

  /** A JSON value, as far as the checks tell values apart; `Other` is also an absent one. */
  datatype Value = Text(text: string) | Number(n: int) | NegativeZero | Other

  datatype Manifest = Manifest(name: Value, metadata: Option<map<string, Value>>,
                               dependencies: set<string>, peerDependencies: set<string>, devDependencies: set<string>)

  /** A discovered manifest path, with the versions its directory name spells. */
  datatype Discovered = Discovered(path: string, versions: Option<(nat, nat)>)

  type Disk = map<string, Manifest>

  datatype Declaration = Declaration(packageName: string, importPath: string, from: nat, to: nat, migration: string,
                                     sourceCodec: string, targetCodec: string,
                                     targetHeaderValidator: string, targetRestorer: string)

  datatype Failure =
    | Unreadable(path: string)
    | NoMetadata(path: string)
    | UnknownMember(path: string)
    | BadField(path: string, field: string)
    | NotAdjacent(path: string)
    | WrongName(path: string)
    | WrongDirectory(path: string)
    | Miscount(version: nat, found: nat)
    | WrongEnd
    | CatalogNotShared
    | CatalogLacks(packageName: string)
    | BrokenChain(from: nat)
    | LacksPrevious(packageName: string)
    | NothingToRender

  datatype Result<T> = Ok(value: T) | Err(failure: Failure)

  const SESSION := "@deepseek-ai/dsh-session"
  const CATALOG := "packages/session/session-format-catalog/package.json"

  const MEMBERS: set<string> := {"from", "to", "export", "migration", "sourceCodec", "targetCodec",
                                 "targetHeaderValidator", "targetRestorer"}

  // ---------------------------------------------------------------- one declaration

  function Versions(from: nat, to: nat): string {
    "v" + Decimal(from) + "-to-v" + Decimal(to)
  }

  function PackageName(from: nat, to: nat): string {
    "@deepseek-ai/dsh-session-format-" + Versions(from, to)
  }

  function ManifestPath(from: nat, to: nat): string {
    "packages/session/session-format-" + Versions(from, to) + "/package.json"
  }

  function Member(metadata: map<string, Value>, key: string): Value {
    if key in metadata then metadata[key] else Other
  }

  function SafeVersion(v: Value): Option<nat> {
    if v.Number? && 0 <= v.n <= MAX_SAFE_INTEGER then Some(v.n) else None
  }

  function Nonempty(v: Value): Option<string> {
    if v.Text? && v.text != "" then Some(v.text) else None
  }

  function ImportPath(packageName: string, exportPath: string): string {
    if exportPath == "." then packageName
    else packageName + "/" + if "./" <= exportPath then exportPath[2..] else exportPath
  }

  /** The first of `fields` that is not a non-empty string. */
  function FirstEmpty(metadata: map<string, Value>, fields: seq<string>): Option<string> {
    if fields == [] then None
    else if Nonempty(Member(metadata, fields[0])).None? then Some(fields[0])
    else FirstEmpty(metadata, fields[1..])
  }

  const NAMES := ["export", "migration", "sourceCodec", "targetCodec", "targetHeaderValidator", "targetRestorer"]

  /** One round of the collecting loop. What it accepts is an adjacent pair of versions, named alike
      by the metadata, the package name and the directory. */
  function Declare(d: Discovered, disk: Disk): (r: Result<Declaration>)
    ensures r.Ok? ==> r.value.to == r.value.from + 1 && d.versions == Some((r.value.from, r.value.to))
    ensures r.Ok? ==> r.value.packageName == PackageName(r.value.from, r.value.to)
    ensures r.Ok? ==> d.path in disk && disk[d.path].metadata.Some? && disk[d.path].metadata.value.Keys <= MEMBERS
  {
    if d.path !in disk then Err(Unreadable(d.path))
    else if disk[d.path].metadata.None? then Err(NoMetadata(d.path))
    else
      var metadata := disk[d.path].metadata.value;
      var name := Nonempty(disk[d.path].name);
      var from, to := SafeVersion(Member(metadata, "from")), SafeVersion(Member(metadata, "to"));
      if !(metadata.Keys <= MEMBERS) then Err(UnknownMember(d.path))
      else if name.None? then Err(BadField(d.path, "name"))
      else if from.None? then Err(BadField(d.path, "from"))
      else if to.None? then Err(BadField(d.path, "to"))
      else if to.value != from.value + 1 then Err(NotAdjacent(d.path))
      else if name.value != PackageName(from.value, to.value) then Err(WrongName(d.path))
      else if d.versions != Some((from.value, to.value)) then Err(WrongDirectory(d.path))
      else
        var missing := FirstEmpty(metadata, NAMES);
        if missing.Some? then Err(BadField(d.path, missing.value))
        else
          Ok(Declaration(name.value, ImportPath(name.value, StringMember(metadata, "export")), from.value, to.value,
                         StringMember(metadata, "migration"),
                         StringMember(metadata, "sourceCodec"), StringMember(metadata, "targetCodec"),
                         StringMember(metadata, "targetHeaderValidator"), StringMember(metadata, "targetRestorer")))
  }

  function StringMember(metadata: map<string, Value>, key: string): string {
    var v := Nonempty(Member(metadata, key));
    if v.Some? then v.value else ""
  }

  /** The declarations of the first `n` discovered manifests, or the first failure among them. */
  function DeclareFirst(ds: seq<Discovered>, disk: Disk, n: nat): (r: Result<seq<Declaration>>)
    requires n <= |ds|
    ensures r.Ok? ==> |r.value| == n && forall i :: 0 <= i < n ==> Declare(ds[i], disk) == Ok(r.value[i])
    ensures r.Ok? <==> forall i :: 0 <= i < n ==> Declare(ds[i], disk).Ok?
  {
    if n == 0 then Ok([]) else
      var before := DeclareFirst(ds, disk, n - 1);
      if before.Err? then before else
        var last := Declare(ds[n - 1], disk);
        if last.Err? then Err(last.failure) else Ok(before.value + [last.value])
  }

  /** The metadata names `value` under `key`. */
  predicate Names(metadata: map<string, Value>, key: string, value: string) {
    key in metadata && metadata[key] == Text(value) && value != ""
  }

  /** The manifest declares exactly `x`: an adjacent pair of versions, named alike by the metadata, the
      package name and the directory, everything else as the metadata member of that name says, and
      nothing more in the metadata. */
  ghost predicate Tells(d: Discovered, disk: Disk, x: Declaration) {
    && d.path in disk && disk[d.path].metadata.Some?
    && TellsVersions(d, disk[d.path], disk[d.path].metadata.value, x)
    && TellsMembers(disk[d.path].metadata.value, x)
  }

  predicate TellsVersions(d: Discovered, manifest: Manifest, metadata: map<string, Value>, x: Declaration) {
    && metadata.Keys <= {"from", "to", "export", "migration", "sourceCodec", "targetCodec",
                         "targetHeaderValidator", "targetRestorer"}
    && "from" in metadata && metadata["from"] == Number(x.from)
    && "to" in metadata && metadata["to"] == Number(x.to)
    && x.to == x.from + 1 && x.to <= 9007199254740991
    && d.versions == Some((x.from, x.to))
    && manifest.name == Text(x.packageName)
    && x.packageName == "@deepseek-ai/dsh-session-format-v" + Decimal(x.from) + "-to-v" + Decimal(x.to)
  }

  ghost predicate TellsMembers(metadata: map<string, Value>, x: Declaration) {
    && (|| (Names(metadata, "export", ".") && x.importPath == x.packageName)
        || exists path :: ExportedAs(metadata, path) && x.importPath == x.packageName + "/" + path)
    && Names(metadata, "migration", x.migration)
    && Names(metadata, "sourceCodec", x.sourceCodec)
    && Names(metadata, "targetCodec", x.targetCodec)
    && Names(metadata, "targetHeaderValidator", x.targetHeaderValidator)
    && Names(metadata, "targetRestorer", x.targetRestorer)
  }

  /** The export is written `./path`, or `path` without the dot. */
  predicate ExportedAs(metadata: map<string, Value>, path: string) {
    Names(metadata, "export", "./" + path) || (Names(metadata, "export", path) && path != "." && !("./" <= path))
  }

  lemma {:induction false} FirstEmptyIff(metadata: map<string, Value>, fields: seq<string>)
    ensures FirstEmpty(metadata, fields).None? <==>
      forall f :: f in fields ==> Names(metadata, f, StringMember(metadata, f))
  {
    if fields != [] {
      FirstEmptyIff(metadata, fields[1..]);
      assert fields == [fields[0]] + fields[1..];
      assert Nonempty(Member(metadata, fields[0])).Some? <==>
        Names(metadata, fields[0], StringMember(metadata, fields[0]));
    }
  }

  lemma ImportPathIs(metadata: map<string, Value>, packageName: string, e: string, importPath: string)
    requires Names(metadata, "export", e)
    ensures importPath == ImportPath(packageName, e) <==>
      || (Names(metadata, "export", ".") && importPath == packageName)
      || exists path :: ExportedAs(metadata, path) && importPath == packageName + "/" + path
  {
    if e != "." {
      var path := if "./" <= e then e[2..] else e;
      assert "./" <= e ==> e == "./" + path;
      assert ExportedAs(metadata, path);
      forall other | ExportedAs(metadata, other)
        ensures other == path
      {
        assert ("./" + other)[2..] == other;
      }
    }
  }

  /** All names are non-empty strings. */
  lemma AllNamed(metadata: map<string, Value>)
    ensures FirstEmpty(metadata, NAMES).None? <==>
      && Names(metadata, "export", StringMember(metadata, "export"))
      && Names(metadata, "migration", StringMember(metadata, "migration"))
      && Names(metadata, "sourceCodec", StringMember(metadata, "sourceCodec"))
      && Names(metadata, "targetCodec", StringMember(metadata, "targetCodec"))
      && Names(metadata, "targetHeaderValidator", StringMember(metadata, "targetHeaderValidator"))
      && Names(metadata, "targetRestorer", StringMember(metadata, "targetRestorer"))
  {
    hide Names, FirstEmpty, StringMember;
    FirstEmptyIff(metadata, NAMES);
    assert forall f :: f in NAMES <==> f in {"export", "migration", "sourceCodec", "targetCodec",
                                             "targetHeaderValidator", "targetRestorer"};
  }

  lemma NamesOne(metadata: map<string, Value>, key: string, value: string)
    requires Names(metadata, key, value)
    ensures StringMember(metadata, key) == value
  {
  }

  /** What `Declare` reads from the members that are names. */
  predicate ReadsMembers(metadata: map<string, Value>, x: Declaration) {
    && FirstEmpty(metadata, NAMES).None?
    && x.importPath == ImportPath(x.packageName, StringMember(metadata, "export"))
    && x.migration == StringMember(metadata, "migration")
    && x.sourceCodec == StringMember(metadata, "sourceCodec") && x.targetCodec == StringMember(metadata, "targetCodec")
    && x.targetHeaderValidator == StringMember(metadata, "targetHeaderValidator")
    && x.targetRestorer == StringMember(metadata, "targetRestorer")
  }

  lemma MembersIff(metadata: map<string, Value>, x: Declaration)
    ensures ReadsMembers(metadata, x) <==> TellsMembers(metadata, x)
  {
    hide FirstEmpty, StringMember, Names, ImportPath, ExportedAs;
    AllNamed(metadata);
    if ReadsMembers(metadata, x) {
      ImportPathIs(metadata, x.packageName, StringMember(metadata, "export"), x.importPath);
    }
    if TellsMembers(metadata, x) {
      TellsExport(metadata, x);
      NamesOne(metadata, "migration", x.migration);
      NamesOne(metadata, "sourceCodec", x.sourceCodec);
      NamesOne(metadata, "targetCodec", x.targetCodec);
      NamesOne(metadata, "targetHeaderValidator", x.targetHeaderValidator);
      NamesOne(metadata, "targetRestorer", x.targetRestorer);
    }
  }

  lemma TellsExport(metadata: map<string, Value>, x: Declaration)
    requires || (Names(metadata, "export", ".") && x.importPath == x.packageName)
             || exists path :: ExportedAs(metadata, path) && x.importPath == x.packageName + "/" + path
    ensures Names(metadata, "export", StringMember(metadata, "export"))
    ensures x.importPath == ImportPath(x.packageName, StringMember(metadata, "export"))
  {
    hide ImportPath;
    var e := StringMember(metadata, "export");
    ImportPathIs(metadata, x.packageName, e, x.importPath);
  }

  lemma PackageNameIs(from: nat, to: nat)
    ensures PackageName(from, to) == "@deepseek-ai/dsh-session-format-v" + Decimal(from) + "-to-v" + Decimal(to)
  {
    assert "@deepseek-ai/dsh-session-format-v" == "@deepseek-ai/dsh-session-format-" + "v";
  }

  lemma VersionsIff(d: Discovered, manifest: Manifest, metadata: map<string, Value>, x: Declaration)
    ensures TellsVersions(d, manifest, metadata, x) <==>
      && metadata.Keys <= MEMBERS && Nonempty(manifest.name) == Some(x.packageName)
      && SafeVersion(Member(metadata, "from")) == Some(x.from) && SafeVersion(Member(metadata, "to")) == Some(x.to)
      && x.to == x.from + 1 && x.packageName == PackageName(x.from, x.to) && d.versions == Some((x.from, x.to))
  {
    hide PackageName;
    PackageNameIs(x.from, x.to);
  }

  /** A manifest is accepted as a declaration exactly when it declares it. */
  lemma DeclareIff(d: Discovered, disk: Disk, x: Declaration)
    ensures Declare(d, disk) == Ok(x) <==> Tells(d, disk, x)
  {
    hide TellsMembers, TellsVersions, FirstEmpty, StringMember, ImportPath, PackageName;
    if d.path in disk && disk[d.path].metadata.Some? {
      MembersIff(disk[d.path].metadata.value, x);
      VersionsIff(d, disk[d.path], disk[d.path].metadata.value, x);
    }
  }

  // ---------------------------------------------------------------- the inventory

  function ByFrom(left: Declaration, right: Declaration): int {
    left.from - right.from
  }

  function Matching(s: seq<Declaration>, version: nat): seq<Declaration> {
    if s == [] then [] else (if s[0].from == version then [s[0]] else []) + Matching(s[1..], version)
  }

  /** The first version from `version` on that has not exactly one migration. */
  function FirstMiscount(s: seq<Declaration>, version: nat, currentVersion: nat): Option<Failure>
    decreases currentVersion - version
  {
    if version >= currentVersion then None
    else if |Matching(s, version)| != 1 then Some(Miscount(version, |Matching(s, version)|))
    else FirstMiscount(s, version + 1, currentVersion)
  }

  predicate Shared(catalog: Manifest) {
    SESSION !in catalog.dependencies && SESSION in catalog.peerDependencies && SESSION in catalog.devDependencies
  }

  /** What is wrong with the `i`-th declaration of the sorted inventory, if anything. */
  function Unlinked(s: seq<Declaration>, i: nat, catalog: Manifest, disk: Disk): Option<Failure>
    requires i < |s|
  {
    if s[i].packageName !in catalog.dependencies then Some(CatalogLacks(s[i].packageName))
    else if i == 0 then None
    else if s[i].sourceCodec != s[i - 1].targetCodec then Some(BrokenChain(s[i].from))
    else
      var path := ManifestPath(s[i].from, s[i].to);
      if path !in disk then Some(Unreadable(path))
      else if s[i - 1].packageName !in disk[path].dependencies then Some(LacksPrevious(s[i].packageName))
      else None
  }

  function FirstUnlinked(s: seq<Declaration>, i: nat, catalog: Manifest, disk: Disk): (r: Option<Failure>)
    requires i <= |s|
    ensures r.None? <==> forall k :: i <= k < |s| ==> Unlinked(s, k, catalog, disk).None?
    decreases |s| - i
  {
    if i == |s| then None
    else if Unlinked(s, i, catalog, disk).Some? then Unlinked(s, i, catalog, disk)
    else FirstUnlinked(s, i + 1, catalog, disk)
  }

  /** The checks on the sorted inventory. */
  function Validate(s: seq<Declaration>, disk: Disk, currentVersion: nat): Option<Failure> {
    var miscount := FirstMiscount(s, 0, currentVersion);
    if miscount.Some? then miscount
    else if (exists d :: d in s && d.from >= currentVersion) || |s| != currentVersion then Some(WrongEnd)
    else if CATALOG !in disk then Some(Unreadable(CATALOG))
    else if !Shared(disk[CATALOG]) then Some(CatalogNotShared)
    else FirstUnlinked(s, 0, disk[CATALOG], disk)
  }

  function Collect(ds: seq<Discovered>, disk: Disk, currentVersion: nat): Result<seq<Declaration>> {
    var declared := DeclareFirst(ds, disk, |ds|);
    if declared.Err? then declared
    else
      var s := StableSort.Sort(declared.value, ByFrom);
      var failure := Validate(s, disk, currentVersion);
      if failure.Some? then Err(failure.value) else Ok(s)
  }

  // ---------------------------------------------------------------- what acceptance means

  /** A complete chain: migration `i` goes from version `i` to `i + 1`, continues the codec before it
      and depends on the package before it, and the catalog depends on every package. */
  ghost predicate Chain(s: seq<Declaration>, disk: Disk, currentVersion: nat) {
    && |s| == currentVersion
    && (forall i :: 0 <= i < |s| ==> s[i].from == i && s[i].to == i + 1)
    && "packages/session/session-format-catalog/package.json" in disk
    && var catalog := disk["packages/session/session-format-catalog/package.json"];
    && "@deepseek-ai/dsh-session" !in catalog.dependencies
    && "@deepseek-ai/dsh-session" in catalog.peerDependencies
    && "@deepseek-ai/dsh-session" in catalog.devDependencies
    && (forall i :: 0 <= i < |s| ==> Linked(s, i, catalog, disk))
  }

  ghost predicate Linked(s: seq<Declaration>, i: nat, catalog: Manifest, disk: Disk)
    requires i < |s|
  {
    && s[i].packageName in catalog.dependencies
    && (i > 0 ==>
          var path := "packages/session/session-format-v" + Decimal(s[i].from) + "-to-v" + Decimal(s[i].to)
                      + "/package.json";
          && s[i].sourceCodec == s[i - 1].targetCodec
          && path in disk && s[i - 1].packageName in disk[path].dependencies)
  }

  /** `s` holds what the discovered manifests declare, each once. */
  ghost predicate Declares(ds: seq<Discovered>, disk: Disk, s: seq<Declaration>) {
    exists declared: seq<Declaration> ::
      && |declared| == |ds| && (forall i :: 0 <= i < |ds| ==> Tells(ds[i], disk, declared[i]))
      && multiset(s) == multiset(declared)
  }

  lemma DeclaresIff(ds: seq<Discovered>, disk: Disk, s: seq<Declaration>)
    ensures Declares(ds, disk, s) <==>
      var declared := DeclareFirst(ds, disk, |ds|); declared.Ok? && multiset(s) == multiset(declared.value)
  {
    hide Tells, Declare, DeclareFirst;
    var r := DeclareFirst(ds, disk, |ds|);
    if Declares(ds, disk, s) {
      var declared: seq<Declaration> :|
        && |declared| == |ds| && (forall i :: 0 <= i < |ds| ==> Tells(ds[i], disk, declared[i]))
        && multiset(s) == multiset(declared);
      AreDeclared(ds, disk, declared);
    }
    if r.Ok? {
      forall i | 0 <= i < |ds|
        ensures Tells(ds[i], disk, r.value[i])
      {
        DeclareIff(ds[i], disk, r.value[i]);
      }
    }
  }

  lemma AreDeclared(ds: seq<Discovered>, disk: Disk, declared: seq<Declaration>)
    requires |declared| == |ds| && forall i :: 0 <= i < |ds| ==> Tells(ds[i], disk, declared[i])
    ensures DeclareFirst(ds, disk, |ds|) == Ok(declared)
  {
    hide Tells, Declare, DeclareFirst;
    forall i | 0 <= i < |ds|
      ensures Declare(ds[i], disk) == Ok(declared[i])
    {
      DeclareIff(ds[i], disk, declared[i]);
    }
    var r := DeclareFirst(ds, disk, |ds|);
    assert r.Ok?;
    assert forall i :: 0 <= i < |ds| ==> Declare(ds[i], disk) == Ok(r.value[i]) && r.value[i] == declared[i];
    assert r.value == declared;
  }

  ghost predicate Numbered(s: seq<Declaration>) {
    forall i :: 0 <= i < |s| ==> s[i].from == i
  }

  lemma {:induction false} MatchingNone(s: seq<Declaration>, version: nat)
    requires forall i :: 0 <= i < |s| ==> s[i].from != version
    ensures Matching(s, version) == []
  {
    if s != [] {
      MatchingNone(s[1..], version);
    }
  }

  lemma {:induction false} MatchingOne(s: seq<Declaration>, version: nat, k: nat)
    requires k < |s| && s[k].from == version
    requires forall i :: 0 <= i < |s| && i != k ==> s[i].from != version
    ensures |Matching(s, version)| == 1
  {
    if k == 0 {
      MatchingNone(s[1..], version);
    } else {
      MatchingOne(s[1..], version, k - 1);
    }
  }

  lemma {:induction false} MatchingSome(s: seq<Declaration>, version: nat, k: nat)
    requires k < |s| && s[k].from == version
    ensures |Matching(s, version)| >= 1
  {
    if k > 0 {
      MatchingSome(s[1..], version, k - 1);
    }
  }

  lemma {:induction false} MatchingTwo(s: seq<Declaration>, version: nat, i: nat, j: nat)
    requires i < j < |s| && s[i].from == version && s[j].from == version
    ensures |Matching(s, version)| >= 2
  {
    if i == 0 {
      MatchingSome(s[1..], version, j - 1);
    } else {
      MatchingTwo(s[1..], version, i - 1, j - 1);
    }
  }

  lemma {:induction false} NoMiscountIff(s: seq<Declaration>, version: nat, currentVersion: nat)
    ensures FirstMiscount(s, version, currentVersion).None?
       <==> forall v :: version <= v < currentVersion ==> |Matching(s, v)| == 1
    decreases currentVersion - version
  {
    hide Matching;
    if version < currentVersion {
      NoMiscountIff(s, version + 1, currentVersion);
      assert FirstMiscount(s, version, currentVersion).None?
        <==> |Matching(s, version)| == 1 && FirstMiscount(s, version + 1, currentVersion).None?;
      forall v: nat | version <= v < currentVersion && FirstMiscount(s, version, currentVersion).None?
        ensures |Matching(s, v)| == 1
      {
        assert v == version || version + 1 <= v;
      }
    }
  }

  ghost predicate Ascending(s: seq<Declaration>) {
    forall i, j :: 0 <= i < j < |s| ==> s[i].from < s[j].from
  }

  /** A strictly ascending sequence of naturals below its own length is 0, 1, 2, ... */
  lemma {:induction false} AscendingIsNumbered(s: seq<Declaration>, i: nat)
    requires Ascending(s) && i < |s| && forall k :: 0 <= k < |s| ==> s[k].from < |s|
    ensures s[i].from == i
  {
    AtLeastItsIndex(s, i);
    AtMostItsIndex(s, i);
  }

  lemma {:induction false} AtLeastItsIndex(s: seq<Declaration>, i: nat)
    requires Ascending(s) && i < |s|
    ensures s[i].from >= i
  {
    if i > 0 {
      AtLeastItsIndex(s, i - 1);
    }
  }

  lemma {:induction false} AtMostItsIndex(s: seq<Declaration>, i: nat)
    requires Ascending(s) && i < |s| && forall k :: 0 <= k < |s| ==> s[k].from < |s|
    ensures s[i].from <= i
    decreases |s| - i
  {
    if i + 1 < |s| {
      AtMostItsIndex(s, i + 1);
    }
  }

  /** The three checks on the sorted versions say exactly that they are 0, 1, 2, ... */
  lemma CountsMeanNumbered(s: seq<Declaration>, currentVersion: nat)
    requires StableSort.Ordered(s, ByFrom)
    ensures FirstMiscount(s, 0, currentVersion).None? && (forall d :: d in s ==> d.from < currentVersion)
              && |s| == currentVersion
       <==> Numbered(s) && |s| == currentVersion
  {
    hide FirstMiscount, Matching;
    NoMiscountIff(s, 0, currentVersion);
    if |s| == currentVersion {
      if Numbered(s) {
        forall v: nat | v < currentVersion
          ensures |Matching(s, v)| == 1
        {
          MatchingOne(s, v, v);
        }
      }
      if FirstMiscount(s, 0, currentVersion).None? && forall d :: d in s ==> d.from < currentVersion {
        CountedIsNumbered(s);
      }
    }
  }

  lemma CountedIsNumbered(s: seq<Declaration>)
    requires StableSort.Ordered(s, ByFrom) && forall d :: d in s ==> d.from < |s|
    requires forall v :: 0 <= v < |s| ==> |Matching(s, v)| == 1
    ensures Numbered(s)
  {
    hide Matching;
    forall i, j | 0 <= i < j < |s|
      ensures s[i].from < s[j].from
    {
      assert ByFrom(s[i], s[j]) <= 0;
      assert s[i] in s;
      if s[i].from == s[j].from {
        MatchingTwo(s, s[i].from, i, j);
      }
    }
    forall i | 0 <= i < |s|
      ensures s[i].from == i
    {
      AscendingIsNumbered(s, i);
    }
  }

  lemma RestsAgree(s: seq<Declaration>, r: seq<Declaration>)
    requires s != [] && r != [] && s[0] == r[0] && multiset(s) == multiset(r)
    ensures multiset(s[1..]) == multiset(r[1..])
  {
    assert s == [s[0]] + s[1..] && r == [r[0]] + r[1..];
    assert multiset(s[1..]) == multiset(s) - multiset{s[0]};
  }

  lemma HeadsAgree(s: seq<Declaration>, r: seq<Declaration>)
    requires StableSort.Ordered(s, ByFrom) && Ascending(r) && s != [] && r != []
    requires forall d :: d in s <==> d in r
    ensures s[0] == r[0]
  {
    assert s[0] in r && r[0] in s;
    var i :| 0 <= i < |s| && s[i] == r[0];
    var k :| 0 <= k < |r| && r[k] == s[0];
    assert i > 0 ==> ByFrom(s[0], s[i]) <= 0;
  }

  lemma TailsFall(s: seq<Declaration>, r: seq<Declaration>)
    requires StableSort.Ordered(s, ByFrom) && Ascending(r) && s != [] && r != []
    ensures StableSort.Ordered(s[1..], ByFrom) && Ascending(r[1..])
  {
  }

  /** A sorted sequence is the numbered one with the same elements. */
  lemma {:induction false} SortedIsNumbered(s: seq<Declaration>, r: seq<Declaration>)
    requires StableSort.Ordered(s, ByFrom) && multiset(s) == multiset(r) && Ascending(r)
    ensures s == r
  {
    StableSort.SameElements(s, r);
    if s != [] {
      HeadsAgree(s, r);
      hide StableSort.Ordered, Ascending;
      TailsFall(s, r);
      RestsAgree(s, r);
      assert s == [s[0]] + s[1..] && r == [r[0]] + r[1..];
      SortedIsNumbered(s[1..], r[1..]);
    }
  }

  lemma SortIsOrdered(xs: seq<Declaration>)
    ensures StableSort.Ordered(StableSort.Sort(xs, ByFrom), ByFrom)
    ensures multiset(StableSort.Sort(xs, ByFrom)) == multiset(xs)
  {
    StableSort.SortOrders(xs, ByFrom);
    StableSort.SortPermutes(xs, ByFrom);
  }

  lemma ManifestPathIs(from: nat, to: nat)
    ensures ManifestPath(from, to) == "packages/session/session-format-v" + Decimal(from) + "-to-v" + Decimal(to)
            + "/package.json"
  {
    assert "packages/session/session-format-v" == "packages/session/session-format-" + "v";
  }

  lemma LinkedIff(s: seq<Declaration>, disk: Disk)
    requires CATALOG in disk
    ensures FirstUnlinked(s, 0, disk[CATALOG], disk).None? <==>
      forall i :: 0 <= i < |s| ==> Linked(s, i, disk[CATALOG], disk)
  {
    forall i | 0 <= i < |s|
      ensures ManifestPath(s[i].from, s[i].to) == "packages/session/session-format-v" + Decimal(s[i].from) + "-to-v"
              + Decimal(s[i].to) + "/package.json"
    {
      ManifestPathIs(s[i].from, s[i].to);
    }
    hide ManifestPath;
    assert forall i :: 0 <= i < |s| ==> (Linked(s, i, disk[CATALOG], disk) <==>
                                             Unlinked(s, i, disk[CATALOG], disk).None?);
  }

  lemma ValidIffChain(s: seq<Declaration>, disk: Disk, currentVersion: nat)
    requires StableSort.Ordered(s, ByFrom) && forall d :: d in s ==> d.to == d.from + 1
    ensures Validate(s, disk, currentVersion).None? <==> Chain(s, disk, currentVersion)
  {
    hide FirstMiscount, FirstUnlinked, StableSort.Ordered, Linked;
    CountsMeanNumbered(s, currentVersion);
    if CATALOG in disk {
      LinkedIff(s, disk);
    }
    assert (forall d :: d in s ==> d.from < currentVersion) <==> !exists d :: d in s && d.from >= currentVersion;
    assert forall i :: 0 <= i < |s| ==> s[i] in s;
  }

  lemma DeclaredAreAdjacent(ds: seq<Discovered>, disk: Disk, s: seq<Declaration>)
    requires Declares(ds, disk, s)
    ensures forall d :: d in s ==> d.to == d.from + 1
  {
    hide Declare;
    DeclaresIff(ds, disk, s);
    hide Declares;
    var declared := DeclareFirst(ds, disk, |ds|).value;
    StableSort.SameElements(s, declared);
    forall d | d in s
      ensures d.to == d.from + 1
    {
      var i :| 0 <= i < |declared| && declared[i] == d;
      assert Declare(ds[i], disk) == Ok(d);
    }
  }

  /** An inventory is accepted exactly when its declarations, each once, form a complete chain, and
      what comes back is that chain. */
  lemma AcceptedIffChain(ds: seq<Discovered>, disk: Disk, currentVersion: nat)
    ensures var r := Collect(ds, disk, currentVersion);
            && (r.Ok? <==> exists s :: Declares(ds, disk, s) && Chain(s, disk, currentVersion))
            && (r.Ok? ==> Declares(ds, disk, r.value) && Chain(r.value, disk, currentVersion))
  {
    hide Validate, Chain, Declares, DeclareFirst, StableSort.Ordered, StableSort.Sort;
    forall s
      ensures Declares(ds, disk, s) <==>
        DeclareFirst(ds, disk, |ds|).Ok? && multiset(s) == multiset(DeclareFirst(ds, disk, |ds|).value)
    {
      DeclaresIff(ds, disk, s);
    }
    var declared := DeclareFirst(ds, disk, |ds|);
    if declared.Ok? {
      var sorted := StableSort.Sort(declared.value, ByFrom);
      SortIsOrdered(declared.value);
      assert Declares(ds, disk, sorted);
      DeclaredAreAdjacent(ds, disk, sorted);
      ValidIffChain(sorted, disk, currentVersion);
      forall s | Declares(ds, disk, s) && Chain(s, disk, currentVersion)
        ensures s == sorted
      {
        ChainIsSorted(s, sorted, disk, currentVersion);
      }
    }
  }

  lemma ChainIsSorted(s: seq<Declaration>, sorted: seq<Declaration>, disk: Disk, currentVersion: nat)
    requires StableSort.Ordered(sorted, ByFrom) && multiset(s) == multiset(sorted) && Chain(s, disk, currentVersion)
    ensures s == sorted
  {
    assert Ascending(s);
    SortedIsNumbered(sorted, s);
  }

  // ---------------------------------------------------------------- rendering

  /** One import statement: the names, each once, and where they come from. */
  datatype Import = Import(names: set<string>, path: string)

  /** What the generated source is assembled from. */
  datatype Catalog = Catalog(imports: seq<Import>, currentVersion: nat, codecs: seq<string>, currentEncoder: string,
                             migrations: seq<string>, restorer: string, headerValidator: string)

  function ImportOf(d: Declaration, currentVersion: nat): Import {
    var names := {d.targetCodec, d.migration}
                 + (if d.from == 0 then {d.sourceCodec} else {})
                 + (if d.to == currentVersion then {d.targetRestorer, d.targetHeaderValidator} else {});
    Import(names, d.importPath)
  }

  function RenderSessionFormatCatalog(s: seq<Declaration>, currentVersion: nat): Result<Catalog> {
    if s == [] then Err(NothingToRender)
    else
      var last := s[|s| - 1];
      Ok(Catalog(seq(|s|, i requires 0 <= i < |s| => ImportOf(s[i], currentVersion)), currentVersion,
                 [s[0].sourceCodec] + seq(|s|, i requires 0 <= i < |s| => s[i].targetCodec), last.targetCodec,
                 seq(|s|, i requires 0 <= i < |s| => s[i].migration), last.targetRestorer, last.targetHeaderValidator))
  }

  /** `name` comes from the package the `i`-th declaration names. */
  predicate ImportedFrom(c: Catalog, s: seq<Declaration>, name: string, i: nat) {
    i < |s| && i < |c.imports| && name in c.imports[i].names && c.imports[i].path == s[i].importPath
  }

  /** The identifiers the generated code mentions. */
  function Used(c: Catalog): set<string> {
    (set i | 0 <= i < |c.codecs| :: c.codecs[i]) + (set i | 0 <= i < |c.migrations| :: c.migrations[i])
    + {c.currentEncoder, c.restorer, c.headerValidator}
  }

  function Imported(c: Catalog): set<string> {
    set i, name | 0 <= i < |c.imports| && name in c.imports[i].names :: name
  }

  /** The parts of the catalog rendered for a chain. */
  lemma CatalogParts(s: seq<Declaration>, currentVersion: nat)
    requires s != []
    ensures var r := RenderSessionFormatCatalog(s, currentVersion);
            && r.Ok? && |r.value.imports| == |r.value.migrations| == |s| && |r.value.codecs| == |s| + 1
            && r.value.codecs[0] == s[0].sourceCodec
            && (forall i :: 0 < i <= |s| ==> r.value.codecs[i] == s[i - 1].targetCodec)
            && (forall i :: 0 <= i < |s| ==> r.value.migrations[i] == s[i].migration)
            && (forall i :: 0 <= i < |s| ==> r.value.imports[i] == ImportOf(s[i], currentVersion))
            && r.value.currentEncoder == s[|s| - 1].targetCodec
            && r.value.restorer == s[|s| - 1].targetRestorer
            && r.value.headerValidator == s[|s| - 1].targetHeaderValidator
  {
  }

  /** The rendered lists fit: migration `i` runs from codec `i` to codec `i + 1`, and the encoder is
      the last codec. */
  lemma RenderedChainFits(s: seq<Declaration>, disk: Disk, currentVersion: nat)
    requires Chain(s, disk, currentVersion) && s != []
    ensures var r := RenderSessionFormatCatalog(s, currentVersion);
            && r.Ok? && |r.value.migrations| == currentVersion && |r.value.codecs| == currentVersion + 1
            && (forall i :: 0 <= i < currentVersion ==> r.value.migrations[i] == s[i].migration)
            && (forall i :: 0 <= i < currentVersion ==> r.value.codecs[i] == s[i].sourceCodec)
            && (forall i :: 0 < i <= currentVersion ==> r.value.codecs[i] == s[i - 1].targetCodec)
            && r.value.currentEncoder == r.value.codecs[currentVersion]
            && r.value.restorer == s[currentVersion - 1].targetRestorer
            && r.value.headerValidator == s[currentVersion - 1].targetHeaderValidator
  {
    hide RenderSessionFormatCatalog, ManifestPath, ImportOf;
    CatalogParts(s, currentVersion);
    forall i | 0 <= i < |s|
      ensures i > 0 ==> s[i].sourceCodec == s[i - 1].targetCodec
    {
      assert Linked(s, i, disk[CATALOG], disk);
    }
  }

  /** Every identifier the generated code mentions is imported from the package that declares it. */
  lemma UsedAreImported(s: seq<Declaration>, disk: Disk, currentVersion: nat)
    requires Chain(s, disk, currentVersion) && s != []
    ensures var c := RenderSessionFormatCatalog(s, currentVersion).value;
            && (forall i :: 0 <= i < currentVersion ==> ImportedFrom(c, s, c.migrations[i], i))
            && (forall i :: 0 < i <= currentVersion ==> ImportedFrom(c, s, c.codecs[i], i - 1))
            && ImportedFrom(c, s, c.codecs[0], 0)
            && ImportedFrom(c, s, c.currentEncoder, currentVersion - 1)
            && ImportedFrom(c, s, c.restorer, currentVersion - 1)
            && ImportedFrom(c, s, c.headerValidator, currentVersion - 1)
  {
  }

  /** The generated code imports exactly the identifiers it uses. */
  lemma ImportsAreUses(s: seq<Declaration>, disk: Disk, currentVersion: nat)
    requires Chain(s, disk, currentVersion) && s != []
    ensures var c := RenderSessionFormatCatalog(s, currentVersion).value;
            Imported(c) == Used(c)
  {
    hide RenderSessionFormatCatalog, Linked, Used, Imported, ImportedFrom;
    CatalogParts(s, currentVersion);
    var c := RenderSessionFormatCatalog(s, currentVersion).value;
    UsedAreImported(s, disk, currentVersion);
    forall name | name in Used(c)
      ensures name in Imported(c)
    {
      UseIsImported(s, c, name);
    }
    forall name | name in Imported(c)
      ensures name in Used(c)
    {
      ImportIsUsed(s, c, currentVersion, name);
    }
  }

  lemma ImportIsUsed(s: seq<Declaration>, c: Catalog, currentVersion: nat, name: string)
    requires |c.imports| == |c.migrations| == |s| == currentVersion && |c.codecs| == |s| + 1 && name in Imported(c)
    requires forall i :: 0 <= i < |s| ==> s[i].from == i && s[i].to == i + 1
    requires forall i :: 0 <= i < |s| ==> c.imports[i] == ImportOf(s[i], currentVersion)
    requires forall i :: 0 <= i < |s| ==> c.migrations[i] == s[i].migration
    requires forall i :: 0 < i <= |s| ==> c.codecs[i] == s[i - 1].targetCodec
    requires s != [] ==> c.codecs[0] == s[0].sourceCodec
    requires s != [] ==> c.restorer == s[|s| - 1].targetRestorer
    requires s != [] ==> c.headerValidator == s[|s| - 1].targetHeaderValidator
    ensures name in Used(c)
  {
    var i :| 0 <= i < |c.imports| && name in c.imports[i].names;
    var d := s[i];
    assert c.codecs[i + 1] == d.targetCodec && c.migrations[i] == d.migration;
  }

  lemma UseIsImported(s: seq<Declaration>, c: Catalog, name: string)
    requires s != [] && |c.imports| == |c.migrations| == |s| && |c.codecs| == |s| + 1 && name in Used(c)
    requires forall i :: 0 <= i < |s| ==> ImportedFrom(c, s, c.migrations[i], i)
    requires forall i :: 0 < i <= |s| ==> ImportedFrom(c, s, c.codecs[i], i - 1)
    requires ImportedFrom(c, s, c.codecs[0], 0) && ImportedFrom(c, s, c.currentEncoder, |s| - 1)
    requires ImportedFrom(c, s, c.restorer, |s| - 1) && ImportedFrom(c, s, c.headerValidator, |s| - 1)
    ensures name in Imported(c)
  {
  }

  // ---------------------------------------------------------------- the loops

  method CollectSessionFormatMigrations(ds: seq<Discovered>, disk: Disk, currentVersion: nat)
    returns (r: Result<seq<Declaration>>)
    ensures r == Collect(ds, disk, currentVersion)
    ensures r.Ok? <==> exists s :: Declares(ds, disk, s) && Chain(s, disk, currentVersion)
    ensures r.Ok? ==> Declares(ds, disk, r.value) && Chain(r.value, disk, currentVersion)
  {
    AcceptedIffChain(ds, disk, currentVersion);
    hide DeclareFirst, Chain, Declares, StableSort.Sort, Validate;
    var declared := DeclareAll(ds, disk);
    if declared.Err? {
      return declared;
    }
    var declarations := StableSort.Sort(declared.value, ByFrom);
    var failure := CheckInventory(declarations, disk, currentVersion);
    r := if failure.Some? then Err(failure.value) else Ok(declarations);
  }

  /** The loop over the discovered manifests. */
  method DeclareAll(ds: seq<Discovered>, disk: Disk) returns (r: Result<seq<Declaration>>)
    ensures r == DeclareFirst(ds, disk, |ds|)
  {
    hide Declare;
    var declarations: seq<Declaration> := [];
    for i := 0 to |ds|
      invariant DeclareFirst(ds, disk, i) == Ok(declarations)
    {
      var declared := Declare(ds[i], disk);
      if declared.Err? {
        DeclareFails(ds, disk, i + 1, |ds|);
        return Err(declared.failure);
      }
      declarations := declarations + [declared.value];
    }
    r := Ok(declarations);
  }

  lemma {:induction false} DeclareFails(ds: seq<Discovered>, disk: Disk, m: nat, n: nat)
    requires m <= n <= |ds| && DeclareFirst(ds, disk, m).Err?
    ensures DeclareFirst(ds, disk, n) == DeclareFirst(ds, disk, m)
    decreases n
  {
    if m < n {
      DeclareFails(ds, disk, m, n - 1);
    }
  }

  method CheckInventory(declarations: seq<Declaration>, disk: Disk, currentVersion: nat)
    returns (failure: Option<Failure>)
    ensures failure == Validate(declarations, disk, currentVersion)
  {
    hide Matching, Shared, Unlinked;
    for version := 0 to currentVersion
      invariant FirstMiscount(declarations, 0, currentVersion) == FirstMiscount(declarations, version, currentVersion)
    {
      var matches := Matching(declarations, version);
      if |matches| != 1 {
        return Some(Miscount(version, |matches|));
      }
    }
    if (exists d :: d in declarations && d.from >= currentVersion) || |declarations| != currentVersion {
      return Some(WrongEnd);
    }
    if CATALOG !in disk {
      return Some(Unreadable(CATALOG));
    }
    var catalog := disk[CATALOG];
    if !Shared(catalog) {
      return Some(CatalogNotShared);
    }
    for i := 0 to |declarations|
      invariant FirstUnlinked(declarations, 0, catalog, disk) == FirstUnlinked(declarations, i, catalog, disk)
    {
      failure := Unlinked(declarations, i, catalog, disk);
      if failure.Some? {
        return;
      }
    }
    failure := None;
  }
}
