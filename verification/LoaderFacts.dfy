/**
 What holds over every run of the module loader, failed loads included, and which outcome a load has.
 */
module LoaderFacts {
  import opened Wrappers
  import opened Sequences
  import opened UseMerge
  import opened UseMergeFacts
  import opened ModuleLoader

  // The loader state.

  /** The modules published before position `i`. */
  ghost function Earlier(s: State, i: nat): map<string, Program>
    requires i <= |s.order| && forall n :: n in s.order ==> n in s.modules
  {
    map n | n in s.order[..i] :: s.modules[n]
  }

  /** Module `i` of the order is its file merged with modules published strictly earlier. */
  ghost predicate Published(files: Files, s: State, i: nat)
    requires i < |s.order| && forall n :: n in s.order ==> n in s.modules && n in s.imports
  {
    var name := s.order[i];
    && files.Available(name)
    && (forall d :: d in files.Source(name).mods ==> d in s.order[..i])
    && var merged := ApplyUses(Earlier(s, i), files.Source(name), files.Source(name).uses, name);
    merged.Ok? && merged.value.program == s.modules[name] && merged.value.targets == s.imports[name]
  }

  ghost predicate Sound(files: Files, s: State) {
    && Distinct(s.order)
    && s.modules.Keys == s.imports.Keys == (set n | n in s.order)
    && forall i :: 0 <= i < |s.order| ==> Published(files, s, i)
  }

  /** Later states only add: loaded modules keep their program, their imports and their place. */
  ghost predicate Extends(s: State, t: State) {
    && s.order <= t.order
    && s.modules.Keys <= t.modules.Keys && s.imports.Keys <= t.imports.Keys
    && (forall n :: n in s.modules ==> t.modules[n] == s.modules[n])
    && (forall n :: n in s.imports ==> t.imports[n] == s.imports[n])
  }

  lemma EarlierKept(s: State, name: string, merged: Merging, i: nat)
    requires i <= |s.order| && name !in s.order && forall n :: n in s.order ==> n in s.modules
    ensures s.Publish(name, merged).order[..i] == s.order[..i]
    ensures forall n :: n in s.Publish(name, merged).order ==> n in s.Publish(name, merged).modules
    ensures Earlier(s.Publish(name, merged), i) == Earlier(s, i)
  {
    assert forall n :: n in s.order[..i] ==> n in s.order;
  }

  lemma PublishedKept(files: Files, s: State, name: string, merged: Merging, i: nat)
    requires Sound(files, s) && name !in s.modules && i < |s.order|
    ensures forall n :: n in s.order + [name] ==>
              n in s.Publish(name, merged).modules && n in s.Publish(name, merged).imports
    ensures Published(files, s.Publish(name, merged), i)
  {
    var t := s.Publish(name, merged);
    assert Published(files, s, i);
    assert s.order[i] in s.order && s.order[i] != name && t.order[i] == s.order[i];
    EarlierKept(s, name, merged, i);
  }

  lemma PublishedLast(files: Files, s: State, name: string, merged: Merging)
    requires Sound(files, s) && name !in s.modules && files.Available(name)
    requires forall d :: d in files.Source(name).mods ==> d in s.modules
    requires ApplyUses(s.modules, files.Source(name), files.Source(name).uses, name) == Ok(merged)
    ensures forall n :: n in s.order + [name] ==>
              n in s.Publish(name, merged).modules && n in s.Publish(name, merged).imports
    ensures Published(files, s.Publish(name, merged), |s.order|)
  {
    var t, n := s.Publish(name, merged), |s.order|;
    assert t.order[..n] == s.order && t.order[n] == name;
    assert Earlier(t, n) == s.modules;
  }

  lemma PublishSound(files: Files, s: State, name: string, merged: Merging)
    requires Sound(files, s) && name !in s.modules && files.Available(name)
    requires forall d :: d in files.Source(name).mods ==> d in s.modules
    requires ApplyUses(s.modules, files.Source(name), files.Source(name).uses, name) == Ok(merged)
    ensures Sound(files, s.Publish(name, merged)) && Extends(s, s.Publish(name, merged))
  {
    var t, n := s.Publish(name, merged), |s.order|;
    assert forall m :: m in t.order <==> m in s.order || m == name;
    forall i | 0 <= i <= n
      ensures Published(files, t, i)
    {
      if i == n { PublishedLast(files, s, name, merged); } else { PublishedKept(files, s, name, merged, i); }
    }
  }

  /** Publishing a module whose `mod`s were loaded below it. */
  lemma LoadPublishes(files: Files, s: State, loaded: State, stack: set<string>, name: string, merged: Merging)
    requires Sound(files, loaded) && Extends(s, loaded) && loaded.modules.Keys !! stack + {name}
    requires name !in stack && files.Available(name)
    requires forall d :: d in files.Source(name).mods ==> d in loaded.modules
    requires ApplyUses(loaded.modules, files.Source(name), files.Source(name).uses, name) == Ok(merged)
    ensures
      var t := loaded.Publish(name, merged);
      Sound(files, t) && Extends(s, t) && t.modules.Keys !! stack && name in t.modules
  {
    assert name in stack + {name};
    PublishSound(files, loaded, name, merged);
  }

  lemma {:induction false} LoadSound(files: Files, s: State, stack: set<string>, name: string)
    requires Sound(files, s) && s.modules.Keys !! stack
    ensures
      var (t, error) := Load(files, s, stack, name);
      Sound(files, t) && Extends(s, t) && t.modules.Keys !! stack && (error.None? ==> name in t.modules)
    decreases |files.Unvisited(stack)|, 0, 0
  {
    if name !in s.modules && name !in stack && files.Available(name) {
      OneMoreOnStack(files, stack, name);
      LoadAllSound(files, s, stack + {name}, files.Source(name).mods);
      var (loaded, error) := LoadAll(files, s, stack + {name}, files.Source(name).mods);
      var merged := ApplyUses(loaded.modules, files.Source(name), files.Source(name).uses, name);
      if error.None? && merged.Ok? {
        LoadPublishes(files, s, loaded, stack, name, merged.value);
      }
    }
  }

  lemma {:induction false} LoadAllSound(files: Files, s: State, stack: set<string>, mods: seq<string>)
    requires Sound(files, s) && s.modules.Keys !! stack
    ensures
      var (t, error) := LoadAll(files, s, stack, mods);
      && Sound(files, t) && Extends(s, t) && t.modules.Keys !! stack
      && (error.None? ==> forall d :: d in mods ==> d in t.modules)
    decreases |files.Unvisited(stack)|, 1, |mods|
  {
    if mods != [] {
      LoadSound(files, s, stack, mods[0]);
      var (loaded, error) := Load(files, s, stack, mods[0]);
      if error.None? { LoadAllSound(files, loaded, stack, mods[1..]); }
    }
  }

  // Runs.

  /** The state after loading those modules one after the other, whatever each load returned. */
  ghost function Run(files: Files, names: seq<string>): State {
    if names == [] then EMPTY else Load(files, Run(files, names[..|names| - 1]), {}, names[|names| - 1]).0
  }

  lemma {:induction false} RunSound(files: Files, names: seq<string>)
    ensures Sound(files, Run(files, names))
  {
    if names != [] {
      RunSound(files, names[..|names| - 1]);
      LoadSound(files, Run(files, names[..|names| - 1]), {}, names[|names| - 1]);
    }
  }

  /** No run ever replaces a module that an earlier part of it published. */
  lemma {:induction false} RunKeeps(files: Files, names: seq<string>, k: nat)
    requires k <= |names|
    ensures Extends(Run(files, names[..k]), Run(files, names))
  {
    if k == |names| {
      assert names[..k] == names;
    } else {
      var front := names[..|names| - 1];
      assert front[..k] == names[..k];
      RunKeeps(files, front, k);
      RunSound(files, front);
      LoadSound(files, Run(files, front), {}, names[|names| - 1]);
    }
  }

  // The declared module graph.

  /** A walk along `mod` declarations, read off the files. */
  ghost predicate ModWalk(files: Files, walk: seq<string>) {
    && walk != []
    && forall i :: 0 <= i < |walk| - 1 ==>
         files.Available(walk[i]) && walk[i + 1] in files.Source(walk[i]).mods
  }

  ghost predicate WalkFrom(files: Files, name: string, walk: seq<string>) {
    ModWalk(files, walk) && walk[0] == name
  }

  ghost predicate CycleReachable(files: Files, name: string) {
    exists walk :: WalkFrom(files, name, walk) && !Distinct(walk)
  }

  ghost predicate Reachable(files: Files, name: string, n: string) {
    exists walk :: WalkFrom(files, name, walk) && walk[|walk| - 1] == n
  }

  /** The place of a loaded module in the publishing order. */
  ghost function Place(s: State, name: string): (i: nat)
    requires name in s.order
    ensures i < |s.order| && s.order[i] == name
  {
    var i :| 0 <= i < |s.order| && s.order[i] == name; i
  }

  lemma LoadedEdge(files: Files, s: State, name: string, dep: string)
    requires Sound(files, s) && name in s.modules
    ensures files.Available(name)
    ensures dep in files.Source(name).mods ==> dep in s.order && Place(s, dep) < Place(s, name)
  {
    var k := Place(s, name);
    assert Published(files, s, k);
    if dep in files.Source(name).mods {
      var i :| 0 <= i < k && s.order[i] == dep;
      assert Place(s, dep) == i;
    }
  }

  /** From a loaded module, `mod` declarations lead only to loaded modules, each published strictly earlier. */
  lemma {:induction false} LoadedWalk(files: Files, s: State, walk: seq<string>)
    requires Sound(files, s) && ModWalk(files, walk) && walk[0] in s.modules
    ensures forall n :: n in walk ==> n in s.order && files.Available(n) && Place(s, n) <= Place(s, walk[0])
    ensures Distinct(walk)
    decreases |walk|
  {
    if |walk| == 1 {
      LoadedEdge(files, s, walk[0], walk[0]);
    } else {
      assert files.Available(walk[0]) && walk[1] in files.Source(walk[0]).mods;
      LoadedEdge(files, s, walk[0], walk[1]);
      var rest := walk[1..];
      forall i | 0 <= i < |rest| - 1
        ensures files.Available(rest[i]) && rest[i + 1] in files.Source(rest[i]).mods
      {
        assert rest[i] == walk[i + 1];
      }
      LoadedWalk(files, s, rest);
      assert walk == [walk[0]] + rest;
    }
  }

  lemma LoadedAcyclic(files: Files, s: State, name: string)
    requires Sound(files, s) && name in s.modules
    ensures !CycleReachable(files, name)
    ensures forall n :: Reachable(files, name, n) ==> n in s.modules && files.Available(n)
  {
    forall walk | WalkFrom(files, name, walk)
      ensures Distinct(walk) && walk[|walk| - 1] in s.modules && files.Available(walk[|walk| - 1])
    {
      LoadedWalk(files, s, walk);
    }
  }

  // Which error a load reports.

  /** `walk` ends where `error` arose; `at` is the loader state in which a `use` failed. */
  ghost predicate Explains(files: Files, s: State, stack: set<string>, error: LoadError, walk: seq<string>, at: State) {
    && ModWalk(files, walk) && walk[|walk| - 1] == error.name
    && match error
       case Circular(n) => n in stack || !Distinct(walk)
       case NotFound(n) => n !in files.paths
       case ParseFailed(n) => n in files.paths && !files.Available(n)
       case UseFailed(n, reason) =>
         && files.Available(n) && Sound(files, at) && Extends(s, at)
         && (forall d :: d in files.Source(n).mods ==> d in at.modules)
         && ApplyUses(at.modules, files.Source(n), files.Source(n).uses, n) == Err(reason)
  }

  lemma {:induction false} LoadExplained(files: Files, s: State, stack: set<string>, name: string)
    returns (walk: seq<string>, at: State)
    requires Sound(files, s) && s.modules.Keys !! stack
    requires Load(files, s, stack, name).1.Some?
    ensures Explains(files, s, stack, Load(files, s, stack, name).1.value, walk, at) && walk[0] == name
    decreases |files.Unvisited(stack)|, 0, 0
  {
    walk, at := [name], s;
    if name !in stack && files.Available(name) {
      var program, inside := files.Source(name), stack + {name};
      OneMoreOnStack(files, stack, name);
      LoadAllSound(files, s, inside, program.mods);
      var (loaded, error) := LoadAll(files, s, inside, program.mods);
      if error.Some? {
        var rest, where := LoadAllExplained(files, s, inside, program.mods);
        walk, at := [name] + rest, where;
        ExplainPrefixed(files, s, stack, name, error.value, rest, where);
      } else {
        at := loaded;
      }
    }
  }

  lemma ExplainPrefixed(
    files: Files, s: State, stack: set<string>, name: string, error: LoadError, rest: seq<string>, at: State)
    requires files.Available(name)
    requires Explains(files, s, stack + {name}, error, rest, at) && rest[0] in files.Source(name).mods
    ensures Explains(files, s, stack, error, [name] + rest, at)
  {
    var walk := [name] + rest;
    assert walk[|walk| - 1] == rest[|rest| - 1];
    if !Distinct(rest) {
      var i, j :| 0 <= i < j < |rest| && rest[i] == rest[j];
      assert walk[i + 1] == walk[j + 1];
    } else if error == Circular(name) {
      assert walk[0] == walk[|walk| - 1];
    }
  }

  lemma {:induction false} LoadAllExplained(files: Files, s: State, stack: set<string>, mods: seq<string>)
    returns (walk: seq<string>, at: State)
    requires Sound(files, s) && s.modules.Keys !! stack
    requires LoadAll(files, s, stack, mods).1.Some?
    ensures Explains(files, s, stack, LoadAll(files, s, stack, mods).1.value, walk, at) && walk[0] in mods
    decreases |files.Unvisited(stack)|, 1, |mods|
  {
    LoadSound(files, s, stack, mods[0]);
    var (loaded, error) := Load(files, s, stack, mods[0]);
    if error.Some? {
      walk, at := LoadExplained(files, s, stack, mods[0]);
    } else {
      walk, at := LoadAllExplained(files, loaded, stack, mods[1..]);
    }
  }

  /** In every sound state a load with nothing in progress succeeds or fails for a reason found in the files. */
  lemma LoadOutcome(files: Files, s: State, name: string)
    requires Sound(files, s)
    ensures
      match Load(files, s, {}, name).1
      case None => !CycleReachable(files, name) && forall n :: Reachable(files, name, n) ==> files.Available(n)
      case Some(Circular(n)) => CycleReachable(files, name)
      case Some(NotFound(n)) => Reachable(files, name, n) && n !in files.paths
      case Some(ParseFailed(n)) => Reachable(files, name, n) && n in files.paths && !files.Available(n)
      case Some(UseFailed(n, reason)) =>
        && Reachable(files, name, n) && files.Available(n)
        && exists at :: Sound(files, at) && Extends(s, at)
                        && (forall d :: d in files.Source(n).mods ==> d in at.modules)
                        && ApplyUses(at.modules, files.Source(n), files.Source(n).uses, n) == Err(reason)
  {
    LoadSound(files, s, {}, name);
    var (t, error) := Load(files, s, {}, name);
    if error.None? {
      LoadedAcyclic(files, t, name);
    } else {
      var walk, at := LoadExplained(files, s, {}, name);
      assert WalkFrom(files, name, walk);
    }
  }

  /**
   When every reachable module has a readable file and the load does not stop at a failing `use`, it succeeds
   exactly when no `mod` cycle is reachable, and otherwise reports a circular import.
   */
  lemma LoadExactly(files: Files, s: State, name: string)
    requires Sound(files, s)
    requires forall n :: Reachable(files, name, n) ==> files.Available(n)
    requires Load(files, s, {}, name).1.Some? ==> !Load(files, s, {}, name).1.value.UseFailed?
    ensures Load(files, s, {}, name).1.None? <==> !CycleReachable(files, name)
    ensures Load(files, s, {}, name).1.Some? ==> Load(files, s, {}, name).1.value.Circular?
  {
    LoadOutcome(files, s, name);
  }

  // Files whose `use` declarations cannot fail, whatever was loaded before.

  ghost predicate NoDollar(list: seq<Function>) {
    forall f :: f in list ==> '$' !in f.name
  }

  lemma {:induction false} NoPrefix(name: string, from: nat)
    requires '$' !in name
    ensures LastOccurrence(name, LITERAL_PREFIX, from).None?
    decreases from
  {
    assert LITERAL_PREFIX[15] == '$';
    OccursWhole(name, LITERAL_PREFIX, from, '$');
    if from > 0 { NoPrefix(name, from - 1); }
  }

  lemma OccursWhole(text: string, part: string, at: nat, c: char)
    requires OccursAt(text, part, at) ==> c in part
    ensures OccursAt(text, part, at) ==> c in text
  {
    if OccursAt(text, part, at) {
      var k :| 0 <= k < |part| && part[k] == c;
      assert text[at..][k] == text[at + k];
    }
  }

  /** What a single imported item must be in the file of its module, so that later merges cannot take it away. */
  ghost predicate SafeItem(from: Program, use: Use, current: string) {
    var item := use.itemName;
    var public := exists f :: f in from.functions && f.name == item && f.isPublic;
    && (public || (SameModuleFamily(current, use.moduleName)
                   && (HasName(from.structs, item) || HasName(from.enums, item) || HasName(from.typeAliases, item))))
    && (use.aliasName == "" || public || HasName(from.structs, item) || HasName(from.enums, item))
  }

  ghost predicate NoAliasOf(uses: seq<Use>, moduleName: string) {
    forall v :: v in uses && v.moduleAlias ==> v.aliasName != moduleName[..HeadLength(moduleName)]
  }

  /**
   Every `use` names a module the file declares itself, not through an alias; a single item is one that its module's
   own file guarantees; and there are no literal operators, whose names alone hold a dollar sign.
   */
  ghost predicate PlainProgram(files: Files, program: Program, current: string) {
    && NoDollar(program.functions)
    && forall u :: u in program.uses ==>
         && u.moduleName in program.mods && NoAliasOf(program.uses, u.moduleName) && '$' !in u.aliasName
         && (u.importAll || u.moduleAlias
             || (files.Available(u.moduleName) && SafeItem(files.Source(u.moduleName), u, current)))
  }

  ghost predicate Plain(files: Files) {
    forall n :: files.Available(n) ==> PlainProgram(files, files.Source(n), n)
  }

  /** The same seen from the loaded modules: the `use` finds its module and its item. */
  ghost predicate Works(modules: map<string, Program>, uses: seq<Use>, u: Use, current: string) {
    && u.moduleName in modules && NoDollar(modules[u.moduleName].functions)
    && NoAliasOf(uses, u.moduleName) && '$' !in u.aliasName
    && (u.importAll || u.moduleAlias
        || (&& CheckItem(modules[u.moduleName], u, current, u.moduleName).None?
            && (u.aliasName == "" || HasFunction(modules[u.moduleName], u.itemName)
                || HasName(modules[u.moduleName].structs, u.itemName)
                || HasName(modules[u.moduleName].enums, u.itemName))))
  }

  lemma SafeItemStays(before: Program, after: Program, u: Use, current: string)
    requires Kept(before, after) && SafeItem(before, u, current)
    ensures CheckItem(after, u, current, u.moduleName).None?
    ensures u.aliasName == "" || HasFunction(after, u.itemName) || HasName(after.structs, u.itemName)
            || HasName(after.enums, u.itemName)
  {
    var item := u.itemName;
    if f :| f in before.functions && f.name == item && f.isPublic {
      var i :| 0 <= i < |before.functions| && before.functions[i] == f;
      assert after.functions[i] == f && f in after.functions;
    }
    if HasName(before.structs, item) { PrefixNames(before.structs, after.structs, item); }
    if HasName(before.enums, item) { PrefixNames(before.enums, after.enums, item); }
    if HasName(before.typeAliases, item) { PrefixNames(before.typeAliases, after.typeAliases, item); }
  }

  lemma PrefixNames(before: seq<Symbol>, after: seq<Symbol>, name: string)
    requires before <= after && HasName(before, name)
    ensures HasName(after, name)
  {
    var s :| s in before && s.name == name;
    assert s in after;
  }

  lemma {:induction false} MergePlain(list: seq<Function>, incoming: seq<Function>, moduleName: string)
    requires NoDollar(list) && NoDollar(incoming)
    ensures MergeFunctions(list, incoming, moduleName).Ok?
    ensures NoDollar(MergeFunctions(list, incoming, moduleName).value)
  {
    if incoming != [] {
      MergePlain(list, incoming[..|incoming| - 1], moduleName);
      var middle := MergeFunctions(list, incoming[..|incoming| - 1], moduleName).value;
      var last := incoming[|incoming| - 1];
      assert last in incoming;
      NoPrefix(last.name, |last.name|);
      MergeFunctionFacts(middle, Tag(last, moduleName));
    }
  }

  lemma {:induction false} QualifiedPlain(
    list: seq<Function>, incoming: seq<Function>, alias: string, moduleName: string)
    requires NoDollar(list) && NoDollar(incoming) && '$' !in alias
    ensures NoDollar(AddQualified(list, incoming, alias, moduleName))
  {
    if incoming != [] {
      assert incoming[|incoming| - 1] in incoming;
      QualifiedPlain(list, incoming[..|incoming| - 1], alias, moduleName);
    }
  }

  lemma {:induction false} RenamedPlain(
    list: seq<Function>, incoming: seq<Function>, item: string, alias: string, moduleName: string)
    requires NoDollar(list) && '$' !in alias
    ensures NoDollar(AddRenamed(list, incoming, item, alias, moduleName))
  {
    if incoming != [] { RenamedPlain(list, incoming[..|incoming| - 1], item, alias, moduleName); }
  }

  /** Bound aliases never capture the head of a module name that is used. */
  ghost predicate AliasesApart(aliases: map<string, string>, uses: seq<Use>) {
    forall a :: a in aliases ==> exists v :: v in uses && v.moduleAlias && v.aliasName == a
  }

  lemma OneUseWorks(modules: map<string, Program>, m: Merging, uses: seq<Use>, u: Use, current: string)
    requires u in uses && Works(modules, uses, u, current)
    requires AliasesApart(m.aliases, uses) && NoDollar(m.program.functions)
    ensures Target(modules, m, u) == (u.moduleName, u.moduleAlias)
    ensures ApplyUse(modules, m, u, current).Ok?
    ensures AliasesApart(ApplyUse(modules, m, u, current).value.aliases, uses)
    ensures NoDollar(ApplyUse(modules, m, u, current).value.program.functions)
  {
    assert ResolveAlias(m.aliases, u.moduleName) == u.moduleName;
    var from := modules[u.moduleName];
    var bound := if u.moduleAlias then BindAlias(m, u.aliasName, u.moduleName, from) else m;
    QualifiedPlain(m.program.functions, from.functions, u.aliasName, u.moduleName);
    MergePlain(bound.program.functions, from.functions, u.moduleName);
    var merged := MergeFunctions(bound.program.functions, from.functions, u.moduleName).value;
    RenamedPlain(merged, from.functions, u.itemName, u.aliasName, u.moduleName);
  }

  lemma {:induction false} AllUsesWork(
    modules: map<string, Program>, program: Program, all: seq<Use>, uses: seq<Use>, current: string)
    requires NoDollar(program.functions)
    requires forall u :: u in uses ==> u in all && Works(modules, all, u, current)
    ensures ApplyUses(modules, program, uses, current).Ok?
    ensures AliasesApart(ApplyUses(modules, program, uses, current).value.aliases, all)
    ensures NoDollar(ApplyUses(modules, program, uses, current).value.program.functions)
  {
    if uses != [] {
      var front, last := uses[..|uses| - 1], uses[|uses| - 1];
      assert last in uses && forall u :: u in front ==> u in uses;
      AllUsesWork(modules, program, all, front, current);
      OneUseWorks(modules, ApplyUses(modules, program, front, current).value, all, last, current);
    }
  }

  lemma TargetNamed(
    modules: map<string, Program>, program: Program, uses: seq<Use>, current: string, i: nat)
    requires NoDollar(program.functions) && i < |uses|
    requires forall u :: u in uses ==> Works(modules, uses, u, current)
    ensures ApplyUses(modules, program, uses, current).Ok?
    ensures |ApplyUses(modules, program, uses, current).value.targets| == |uses|
    ensures ApplyUses(modules, program, uses, current).value.targets[i] == uses[i].moduleName
  {
    assert forall u :: u in uses[..i] ==> u in uses;
    AllUsesWork(modules, program, uses, uses, current);
    AllUsesWork(modules, program, uses, uses[..i], current);
    OneUseWorks(modules, ApplyUses(modules, program, uses[..i], current).value, uses, uses[i], current);
    ApplyUsesFacts(modules, program, uses, current);
    TargetsMatch(modules, program, uses, current, i);
  }

  /** What the modules of a sound state owe to plain files. */
  lemma {:induction false} SoundPlain(files: Files, s: State, i: nat)
    requires Sound(files, s) && Plain(files) && i <= |s.order|
    ensures forall n :: n in s.order[..i] ==> NoDollar(s.modules[n].functions)
    decreases i
  {
    if i > 0 {
      SoundPlain(files, s, i - 1);
      assert Published(files, s, i - 1);
      var name := s.order[i - 1];
      assert s.order[..i] == s.order[..i - 1] + [name];
      EarlierWorks(files, s, i - 1);
      AllUsesWork(Earlier(s, i - 1), files.Source(name), files.Source(name).uses, files.Source(name).uses, name);
    }
  }

  /** A loaded module kept everything its own file had. */
  lemma LoadedKeepsFile(files: Files, s: State, name: string)
    requires Sound(files, s) && name in s.modules
    ensures files.Available(name) && Kept(files.Source(name), s.modules[name])
  {
    var i := Place(s, name);
    assert Published(files, s, i);
    ApplyUsesFacts(Earlier(s, i), files.Source(name), files.Source(name).uses, name);
  }

  /** In a sound state of plain files whose modules before `i` hold no dollar sign, the uses of module `i` work. */
  lemma EarlierWorks(files: Files, s: State, i: nat)
    requires Sound(files, s) && Plain(files) && i < |s.order|
    requires forall n :: n in s.order[..i] ==> NoDollar(s.modules[n].functions)
    ensures files.Available(s.order[i])
    ensures
      var program := files.Source(s.order[i]);
      forall u :: u in program.uses ==> Works(Earlier(s, i), program.uses, u, s.order[i])
  {
    var name := s.order[i];
    assert Published(files, s, i);
    assert PlainProgram(files, files.Source(name), name);
    assert forall n :: n in s.order[..i] ==> n in s.order;
    forall u | u in files.Source(name).uses
      ensures Works(Earlier(s, i), files.Source(name).uses, u, name)
    {
      assert u.moduleName in s.order[..i];
      SafeUseWorks(files, s, Earlier(s, i), files.Source(name).uses, u, name);
    }
  }

  lemma SafeUseWorks(
    files: Files, s: State, modules: map<string, Program>, uses: seq<Use>, u: Use, current: string)
    requires Sound(files, s) && u.moduleName in s.modules
    requires u.moduleName in modules && modules[u.moduleName] == s.modules[u.moduleName]
    requires NoDollar(modules[u.moduleName].functions) && NoAliasOf(uses, u.moduleName) && '$' !in u.aliasName
    requires u.importAll || u.moduleAlias
             || (files.Available(u.moduleName) && SafeItem(files.Source(u.moduleName), u, current))
    ensures Works(modules, uses, u, current)
  {
    LoadedKeepsFile(files, s, u.moduleName);
    if !u.importAll && !u.moduleAlias {
      SafeItemStays(files.Source(u.moduleName), s.modules[u.moduleName], u, current);
    }
  }

  lemma PlainUsesWork(files: Files, s: State, name: string)
    requires Sound(files, s) && Plain(files) && files.Available(name)
    requires forall d :: d in files.Source(name).mods ==> d in s.modules
    ensures ApplyUses(s.modules, files.Source(name), files.Source(name).uses, name).Ok?
  {
    SoundPlain(files, s, |s.order|);
    assert s.order[..|s.order|] == s.order;
    var program := files.Source(name);
    assert PlainProgram(files, program, name);
    forall u | u in program.uses
      ensures Works(s.modules, program.uses, u, name)
    {
      SafeUseWorks(files, s, s.modules, program.uses, u, name);
    }
    AllUsesWork(s.modules, program, program.uses, program.uses, name);
  }

  /** For plain files no `use` fails, so the exact answer needs nothing but readable files. */
  lemma PlainLoad(files: Files, s: State, name: string)
    requires Sound(files, s) && Plain(files)
    requires forall n :: Reachable(files, name, n) ==> files.Available(n)
    ensures Load(files, s, {}, name).1.None? <==> !CycleReachable(files, name)
    ensures Load(files, s, {}, name).1.Some? ==> Load(files, s, {}, name).1.value.Circular?
  {
    LoadOutcome(files, s, name);
    var error := Load(files, s, {}, name).1;
    if error.Some? && error.value.UseFailed? {
      var n := error.value.name;
      var at :| Sound(files, at) && (forall d :: d in files.Source(n).mods ==> d in at.modules)
                && ApplyUses(at.modules, files.Source(n), files.Source(n).uses, n).Err?;
      PlainUsesWork(files, at, n);
    }
  }

  // What was loaded before makes no difference to a plain module.

  lemma {:induction false} UsesAgree(
    modules: map<string, Program>, others: map<string, Program>, program: Program, all: seq<Use>, uses: seq<Use>,
    current: string)
    requires NoDollar(program.functions)
    requires forall u :: u in uses ==>
               && u in all && Works(modules, all, u, current) && Works(others, all, u, current)
               && modules[u.moduleName] == others[u.moduleName]
    ensures ApplyUses(modules, program, uses, current) == ApplyUses(others, program, uses, current)
  {
    if uses != [] {
      var front, last := uses[..|uses| - 1], uses[|uses| - 1];
      assert last in uses && forall u :: u in front ==> u in uses;
      UsesAgree(modules, others, program, all, front, current);
      AllUsesWork(modules, program, all, front, current);
      var m := ApplyUses(modules, program, front, current).value;
      OneUseWorks(modules, m, all, last, current);
      OneUseWorks(others, m, all, last, current);
    }
  }

  /**
   The published form of a plain module is the same in every sound state: it does not depend on which modules were
   loaded before it, nor in which order.
   */
  lemma {:induction false} LoadOrderIrrelevant(files: Files, s: State, t: State, name: string)
    requires Sound(files, s) && Sound(files, t) && Plain(files)
    requires name in s.modules && name in t.modules
    ensures s.modules[name] == t.modules[name] && s.imports[name] == t.imports[name]
    decreases Place(s, name)
  {
    var i, j := Place(s, name), Place(t, name);
    assert Published(files, s, i) && Published(files, t, j);
    var program := files.Source(name);
    SoundPlain(files, s, i);
    SoundPlain(files, t, j);
    EarlierWorks(files, s, i);
    EarlierWorks(files, t, j);
    forall u | u in program.uses
      ensures Earlier(s, i)[u.moduleName] == Earlier(t, j)[u.moduleName]
    {
      assert Works(Earlier(s, i), program.uses, u, name) && Works(Earlier(t, j), program.uses, u, name);
      var k :| 0 <= k < i && s.order[k] == u.moduleName;
      assert Place(s, u.moduleName) == k;
      LoadOrderIrrelevant(files, s, t, u.moduleName);
    }
    assert PlainProgram(files, program, name);
    UsesAgree(Earlier(s, i), Earlier(t, j), program, program.uses, program.uses, name);
  }

  /** Where the imports of a loaded module come from. */
  lemma ImportsAre(files: Files, s: State, name: string)
    requires Sound(files, s) && name in s.modules
    ensures files.Available(name)
    ensures
      var program := files.Source(name);
      var merged := ApplyUses(Earlier(s, Place(s, name)), program, program.uses, name);
      && merged.Ok? && s.modules[name] == merged.value.program && s.imports[name] == merged.value.targets
      && s.modules[name].uses == program.uses && |s.imports[name]| == |program.uses|
  {
    var k := Place(s, name);
    assert Published(files, s, k);
    ApplyUsesFacts(Earlier(s, k), files.Source(name), files.Source(name).uses, name);
  }

  /** The i-th import of a loaded module is the module its i-th `use` named when it was merged. */
  lemma ImportTargets(files: Files, s: State, name: string, i: nat)
    requires Sound(files, s) && name in s.modules && i < |s.modules[name].uses|
    ensures files.Available(name) && |s.imports[name]| == |files.Source(name).uses| == |s.modules[name].uses|
    ensures
      var program, earlier := files.Source(name), Earlier(s, Place(s, name));
      && ApplyUses(earlier, program, program.uses[..i], name).Ok?
      && s.imports[name][i] == Target(earlier, ApplyUses(earlier, program, program.uses[..i], name).value,
                                      program.uses[i]).0
  {
    ImportsAre(files, s, name);
    var program := files.Source(name);
    TargetsMatch(Earlier(s, Place(s, name)), program, program.uses, name, i);
  }

  /** In plain files the i-th target is the module the i-th `use` names. */
  lemma PlainTargets(files: Files, s: State, name: string, i: nat)
    requires Sound(files, s) && Plain(files) && name in s.modules
    requires i < |s.modules[name].uses|
    ensures |s.imports[name]| == |s.modules[name].uses|
    ensures s.imports[name][i] == s.modules[name].uses[i].moduleName
  {
    ImportsAre(files, s, name);
    var k, program := Place(s, name), files.Source(name);
    SoundPlain(files, s, k);
    EarlierWorks(files, s, k);
    assert PlainProgram(files, program, name);
    TargetNamed(Earlier(s, k), program, program.uses, name, i);
  }

  /** Unique signature keys in a file stay unique in the loaded module. */
  lemma LoadedUniqueKeys(files: Files, s: State, name: string)
    requires Sound(files, s) && name in s.modules
    ensures files.Available(name)
    ensures UniqueKeys(files.Source(name).functions) ==> UniqueKeys(s.modules[name].functions)
  {
    LoadedKeepsFile(files, s, name);
  }

  // Imported functions.

  /** A chain of `use`s between loaded modules. */
  ghost predicate UseChain(s: State, chain: seq<string>) {
    && chain != []
    && forall i :: 0 <= i < |chain| ==> chain[i] in s.modules && chain[i] in s.imports
                                        && (i + 1 < |chain| ==> chain[i + 1] in s.imports[chain[i]])
  }

  /** A loaded module holds every signature key of every module its `use`s reach, public where it was public. */
  lemma {:induction false} ChainImported(files: Files, s: State, chain: seq<string>)
    requires Sound(files, s) && UseChain(s, chain)
    ensures Imported(s.modules[chain[0]], s.modules[chain[|chain| - 1]])
    decreases |chain|
  {
    if |chain| > 1 {
      ChainImported(files, s, chain[1..]);
      DirectImports(files, s, chain[0]);
    }
  }

  /** Each `use` of a loaded module has one target, loaded strictly earlier, whose keys were all merged in. */
  lemma DirectImports(files: Files, s: State, name: string)
    requires Sound(files, s) && name in s.modules
    ensures |s.imports[name]| == |s.modules[name].uses|
    ensures files.Available(name)
    ensures s.modules[name].uses == files.Source(name).uses && s.modules[name].mods == files.Source(name).mods
    ensures forall t :: t in s.imports[name] ==>
              && t in s.modules && Place(s, t) < Place(s, name)
              && Imported(s.modules[name], s.modules[t])
  {
    var i := Place(s, name);
    assert Published(files, s, i);
    ApplyUsesFacts(Earlier(s, i), files.Source(name), files.Source(name).uses, name);
    forall t | t in s.imports[name]
      ensures t in s.modules && Place(s, t) < i
    {
      var j :| 0 <= j < i && s.order[j] == t;
      assert Place(s, t) == j;
    }
  }
}
