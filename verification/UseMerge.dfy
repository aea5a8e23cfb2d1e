/**
 What a `use` declaration does to the program that holds it: every function of the imported module is
 merged into the program's own list by signature key, aliases are bound, and a single imported item is
 checked for visibility.
 */
module UseMerge {
  import opened Wrappers

  /** A function; `shape` is the rest of its signature key after the name: parameter types and constraints. */
  datatype Function = Function(name: string, shape: string, isPublic: bool, sourceModule: string)
  {
    function Key(): string { name + shape }
  }

  /** A struct, enum, type alias, concept or trait, of which only name and visibility matter here. */
  datatype Symbol = Symbol(name: string, isPublic: bool)

  datatype Use = Use(moduleName: string, itemName: string, aliasName: string, importAll: bool, moduleAlias: bool)

  datatype Program = Program(
    mods: seq<string>,
    uses: seq<Use>,
    functions: seq<Function>,
    structs: seq<Symbol>,
    enums: seq<Symbol>,
    typeAliases: seq<Symbol>,
    concepts: seq<Symbol>,
    traits: seq<Symbol>)

  datatype UseError =
    | NotLoaded(moduleName: string)
    | AmbiguousLiteralOperator(name: string)
    | PrivateItem(item: string, moduleName: string)
    | ItemNotFound(item: string, moduleName: string)
    | CannotAlias(item: string, moduleName: string)

  // Names.

  const LITERAL_PREFIX := "__mlang_literal$"

  predicate OccursAt(text: string, part: string, at: nat) {
    at <= |text| && part <= text[at..]
  }

  /** The last place where `part` occurs at or below `from`. */
  function LastOccurrence(text: string, part: string, from: nat): (r: Option<nat>)
    ensures r.Some? ==> OccursAt(text, part, r.value)
  {
    if OccursAt(text, part, from) then Some(from)
    else if from == 0 then None
    else LastOccurrence(text, part, from - 1)
  }

  /** Names of literal operators, plain or qualified, as the decoder recognises them. */
  predicate IsLiteralOperator(name: string) {
    match LastOccurrence(name, LITERAL_PREFIX, |name|)
    case None => false
    case Some(start) =>
      && (start == 0 || (start >= 2 && name[start - 2..start] == "::"))
      && start + |LITERAL_PREFIX| <= |name|
      && '$' in name[start + |LITERAL_PREFIX|..]
  }

  /** Equal, or one nested in the other by a `::` path. */
  predicate SameModuleFamily(a: string, b: string) {
    if a == "" || b == "" then a == b
    else a == b || a + "::" <= b || b + "::" <= a
  }

  /** The position of the first `::`, or the length of the text. */
  function HeadLength(name: string): (n: nat)
    ensures n <= |name|
  {
    if |name| < 2 then |name|
    else if name[..2] == "::" then 0
    else 1 + HeadLength(name[1..])
  }

  function ResolveAlias(aliases: map<string, string>, rawModule: string): string {
    var sep := HeadLength(rawModule);
    var head := rawModule[..sep];
    if head in aliases then aliases[head] + rawModule[sep..] else rawModule
  }

  // Merging functions by key.

  /** The first entry with that key, or the length of the list. */
  function FindKey(list: seq<Function>, key: string): (i: nat)
    ensures i <= |list|
    ensures i < |list| ==> list[i].Key() == key
    ensures forall j :: 0 <= j < i ==> list[j].Key() != key
  {
    if list == [] then 0
    else if list[0].Key() == key then 0
    else 1 + FindKey(list[1..], key)
  }

  predicate Ambiguous(existing: Function, func: Function) {
    && existing.sourceModule != func.sourceModule
    && (existing.sourceModule == "" || existing.isPublic)
    && (func.sourceModule == "" || func.isPublic)
    && IsLiteralOperator(func.name)
  }

  function Tag(func: Function, moduleName: string): Function {
    if func.sourceModule == "" then func.(sourceModule := moduleName) else func
  }

  function MergeFunction(list: seq<Function>, func: Function): Result<seq<Function>, UseError> {
    var i := FindKey(list, func.Key());
    if i == |list| then Ok(list + [func])
    else if Ambiguous(list[i], func) then Err(AmbiguousLiteralOperator(func.name))
    else if !list[i].isPublic && func.isPublic then Ok(list[i := func])
    else Ok(list)
  }

  function MergeFunctions(list: seq<Function>, incoming: seq<Function>, moduleName: string)
    : Result<seq<Function>, UseError>
  {
    if incoming == [] then Ok(list)
    else
      var merged :- MergeFunctions(list, incoming[..|incoming| - 1], moduleName);
      MergeFunction(merged, Tag(incoming[|incoming| - 1], moduleName))
  }

  // Aliases.

  /** Append `func` unless its key is taken; an alias never replaces an entry. */
  function AddIfNew(list: seq<Function>, func: Function): seq<Function> {
    if FindKey(list, func.Key()) == |list| then list + [func] else list
  }

  /** Qualified copies of a module's functions under `alias`; functions without a name are passed over. */
  function AddQualified(list: seq<Function>, incoming: seq<Function>, alias: string, moduleName: string)
    : seq<Function>
  {
    if incoming == [] then list
    else
      var before := AddQualified(list, incoming[..|incoming| - 1], alias, moduleName);
      var func := incoming[|incoming| - 1];
      if func.name == "" then before
      else AddIfNew(before, Tag(func.(name := alias + "::" + func.name), moduleName))
  }

  /** Copies, named `alias`, of the functions called `item`. */
  function AddRenamed(list: seq<Function>, incoming: seq<Function>, item: string, alias: string, moduleName: string)
    : seq<Function>
  {
    if incoming == [] then list
    else
      var before := AddRenamed(list, incoming[..|incoming| - 1], item, alias, moduleName);
      var func := incoming[|incoming| - 1];
      if func.name != item then before else AddIfNew(before, Tag(func.(name := alias), moduleName))
  }

  // The other symbol lists.

  predicate HasName(list: seq<Symbol>, name: string) {
    exists s | s in list :: s.name == name
  }

  function FirstNamed(list: seq<Symbol>, name: string): (r: Option<Symbol>)
    ensures r.Some? <==> HasName(list, name)
  {
    if list == [] then None
    else if list[0].name == name then Some(list[0])
    else FirstNamed(list[1..], name)
  }

  function MergeByName(list: seq<Symbol>, incoming: seq<Symbol>): seq<Symbol>
    decreases |incoming|
  {
    if incoming == [] then list
    else
      var head := incoming[0];
      MergeByName(if HasName(list, head.name) then list else list + [head], incoming[1..])
  }

  function MergeByValue(list: seq<Symbol>, incoming: seq<Symbol>): seq<Symbol>
    decreases |incoming|
  {
    if incoming == [] then list
    else MergeByValue(if incoming[0] in list then list else list + [incoming[0]], incoming[1..])
  }

  function Qualified(list: seq<Symbol>, alias: string): seq<Symbol> {
    seq(|list|, i requires 0 <= i < |list| => list[i].(name := alias + "::" + list[i].name))
  }

  function MergeSymbols(program: Program, from: Program): Program {
    program.(structs := MergeByName(program.structs, from.structs),
             enums := MergeByName(program.enums, from.enums),
             typeAliases := MergeByName(program.typeAliases, from.typeAliases),
             concepts := MergeByValue(program.concepts, from.concepts),
             traits := MergeByName(program.traits, from.traits))
  }

  // One `use` declaration.

  datatype Merging = Merging(program: Program, aliases: map<string, string>, targets: seq<string>)

  function BindAlias(m: Merging, alias: string, target: string, from: Program): Merging {
    m.(aliases := m.aliases[alias := target],
       program := m.program.(
         functions := AddQualified(m.program.functions, from.functions, alias, target),
         concepts := MergeByName(m.program.concepts, Qualified(from.concepts, alias))))
  }

  /** Whether the item a `use` names may be imported; functions come first, then the other lists in turn. */
  function CheckItem(from: Program, use: Use, current: string, resolved: string): Option<UseError> {
    var item := use.itemName;
    var family := SameModuleFamily(current, resolved);
    var denied := Some(PrivateItem(item, resolved));
    if exists f | f in from.functions :: f.name == item then
      if (exists f | f in from.functions :: f.name == item && f.isPublic) || family then None else denied
    else match FirstNamed(from.structs, item)
      case Some(s) => if s.isPublic || family then None else denied
      case None =>
        if HasName(from.typeAliases, item) then None
        else match FirstNamed(from.enums, item)
          case Some(s) => if s.isPublic || family then None else denied
          case None =>
            match FirstNamed(from.concepts, item)
            case Some(s) => if s.isPublic then None else denied
            case None => if HasName(from.traits, item) then None else Some(ItemNotFound(item, resolved))
  }

  /** Bind the alias of a single imported item; only concepts, functions, structs and enums can have one. */
  function BindItem(program: Program, from: Program, use: Use, resolved: string): Result<Program, UseError> {
    var item, alias := use.itemName, use.aliasName;
    var concepts := match FirstNamed(from.concepts, item)
      case Some(s) => program.concepts + [s.(name := alias)]
      case None => program.concepts;
    var functions := AddRenamed(program.functions, from.functions, item, alias, resolved);
    var bound := program.(concepts := concepts, functions := functions);
    if HasName(from.concepts, item) || exists f | f in from.functions :: f.name == item then Ok(bound)
    else if HasName(from.structs, item) || HasName(from.enums, item) then
      Ok(bound.(typeAliases := MergeByName(bound.typeAliases, [Symbol(alias, false)])))
    else Err(CannotAlias(item, resolved))
  }

  /** The module a `use` ends up naming, and whether it was bound as an alias on the way. */
  function Target(modules: map<string, Program>, m: Merging, use: Use): (string, bool) {
    var resolved := ResolveAlias(m.aliases, use.moduleName);
    var aliases := if use.moduleAlias then m.aliases[use.aliasName := resolved] else m.aliases;
    var combined := ResolveAlias(aliases, use.moduleName + "::" + use.itemName);
    if !use.importAll && use.aliasName != "" && resolved !in modules && combined in modules
    then (combined, true)
    else (resolved, use.moduleAlias)
  }

  /** Everything a `use` of the loaded module `from` merges before the imported item is looked at. */
  function MergeModule(m: Merging, from: Program, alias: Option<string>, resolved: string): Result<Merging, UseError> {
    var bound := if alias.Some? then BindAlias(m, alias.value, resolved, from) else m;
    var functions :- MergeFunctions(bound.program.functions, from.functions, resolved);
    Ok(bound.(program := MergeSymbols(bound.program.(functions := functions), from),
              targets := bound.targets + [resolved]))
  }

  function ApplyUse(modules: map<string, Program>, m: Merging, use: Use, current: string)
    : Result<Merging, UseError>
  {
    var (resolved, aliased) := Target(modules, m, use);
    if resolved !in modules || (use.moduleAlias && ResolveAlias(m.aliases, use.moduleName) !in modules) then
      Err(NotLoaded(if use.moduleAlias then ResolveAlias(m.aliases, use.moduleName) else resolved))
    else
      var from := modules[resolved];
      var merged :- MergeModule(m, from, if aliased then Some(use.aliasName) else None, resolved);
      if use.importAll || aliased then Ok(merged)
      else match CheckItem(from, use, current, resolved)
        case Some(error) => Err(error)
        case None =>
          if use.aliasName == "" then Ok(merged)
          else
            var program :- BindItem(merged.program, from, use, resolved);
            Ok(merged.(program := program))
  }

  function ApplyUses(modules: map<string, Program>, program: Program, uses: seq<Use>, current: string)
    : Result<Merging, UseError>
  {
    if uses == [] then Ok(Merging(program, map[], []))
    else
      var m :- ApplyUses(modules, program, uses[..|uses| - 1], current);
      ApplyUse(modules, m, uses[|uses| - 1], current)
  }

  // The loops.

  method MergeFunctionLists(list: seq<Function>, incoming: seq<Function>, moduleName: string)
    returns (r: Result<seq<Function>, UseError>)
    ensures r == MergeFunctions(list, incoming, moduleName)
  {
    var functions := list;
    for n := 0 to |incoming|
      invariant MergeFunctions(list, incoming[..n], moduleName) == Ok(functions)
    {
      var func := Tag(incoming[n], moduleName);
      MergeFunctionsStep(list, incoming, n, moduleName);
      var alreadyAdded := false;
      for i := 0 to |functions|
        invariant !alreadyAdded
        invariant forall j :: 0 <= j < i ==> functions[j].Key() != func.Key()
        invariant MergeFunctions(list, incoming[..n], moduleName) == Ok(functions)
      {
        var existing := functions[i];
        if existing.Key() == func.Key() {
          if Ambiguous(existing, func) {
            MergeFunctionsFail(list, incoming, n + 1, moduleName);
            return Err(AmbiguousLiteralOperator(func.name));
          }
          if !existing.isPublic && func.isPublic {
            functions := functions[i := func];
          }
          alreadyAdded := true;
          break;
        }
      }
      if !alreadyAdded {
        functions := functions + [func];
      }
    }
    assert incoming[..|incoming|] == incoming;
    return Ok(functions);
  }

  lemma MergeFunctionsStep(list: seq<Function>, incoming: seq<Function>, n: nat, moduleName: string)
    requires n < |incoming| && MergeFunctions(list, incoming[..n], moduleName).Ok?
    ensures MergeFunctions(list, incoming[..n + 1], moduleName)
            == MergeFunction(MergeFunctions(list, incoming[..n], moduleName).value, Tag(incoming[n], moduleName))
  {
    assert incoming[..n + 1][..n] == incoming[..n];
  }

  lemma {:induction false} MergeFunctionsFail(list: seq<Function>, incoming: seq<Function>, n: nat, moduleName: string)
    requires n <= |incoming| && MergeFunctions(list, incoming[..n], moduleName).Err?
    ensures MergeFunctions(list, incoming, moduleName) == MergeFunctions(list, incoming[..n], moduleName)
    decreases |incoming| - n
  {
    if n == |incoming| {
      assert incoming[..n] == incoming;
    } else {
      assert incoming[..n + 1][..n] == incoming[..n];
      MergeFunctionsFail(list, incoming, n + 1, moduleName);
    }
  }

  method BindAliasFunctions(list: seq<Function>, incoming: seq<Function>, alias: string, moduleName: string)
    returns (functions: seq<Function>)
    ensures functions == AddQualified(list, incoming, alias, moduleName)
  {
    functions := list;
    for n := 0 to |incoming|
      invariant functions == AddQualified(list, incoming[..n], alias, moduleName)
    {
      assert incoming[..n + 1][..n] == incoming[..n];
      if incoming[n].name == "" { continue; }
      var copy := Tag(incoming[n].(name := alias + "::" + incoming[n].name), moduleName);
      var i := 0;
      while i < |functions| && functions[i].Key() != copy.Key()
        invariant i <= |functions|
        invariant forall j :: 0 <= j < i ==> functions[j].Key() != copy.Key()
      {
        i := i + 1;
      }
      if i == |functions| { functions := functions + [copy]; }
    }
    assert incoming[..|incoming|] == incoming;
  }

  method ProcessUseDeclarations(modules: map<string, Program>, program: Program, current: string)
    returns (r: Result<Merging, UseError>)
    ensures r == ApplyUses(modules, program, program.uses, current)
  {
    var m := Merging(program, map[], []);
    for n := 0 to |program.uses|
      invariant ApplyUses(modules, program, program.uses[..n], current) == Ok(m)
    {
      var use := program.uses[n];
      ApplyUsesNext(modules, program, program.uses, n, current);
      var step := ProcessUse(modules, m, use, current);
      if step.Err? {
        ApplyUsesFail(modules, program, program.uses, n + 1, current);
        return step;
      }
      m := step.value;
    }
    assert program.uses[..|program.uses|] == program.uses;
    return Ok(m);
  }

  method ProcessUse(modules: map<string, Program>, merging: Merging, use: Use, current: string)
    returns (r: Result<Merging, UseError>)
    ensures r == ApplyUse(modules, merging, use, current)
  {
    var m := merging;
    var resolved := ResolveAlias(m.aliases, use.moduleName);
    var skipItemCheck := false;
    if use.moduleAlias {
      if resolved !in modules { return Err(NotLoaded(resolved)); }
      m := BindModuleAlias(m, use.aliasName, resolved, modules[resolved]);
      skipItemCheck := true;
    }
    if !use.importAll && use.aliasName != "" {
      var combined := ResolveAlias(m.aliases, use.moduleName + "::" + use.itemName);
      if resolved !in modules && combined in modules {
        m := BindModuleAlias(m, use.aliasName, combined, modules[combined]);
        resolved := combined;
        skipItemCheck := true;
      }
    }
    if resolved !in modules { return Err(NotLoaded(resolved)); }
    var from := modules[resolved];
    var functions := MergeFunctionLists(m.program.functions, from.functions, resolved);
    if functions.Err? { return Err(functions.error); }
    m := m.(program := MergeSymbols(m.program.(functions := functions.value), from),
            targets := m.targets + [resolved]);
    if !use.importAll && !skipItemCheck {
      var denied := CheckItem(from, use, current, resolved);
      if denied.Some? { return Err(denied.value); }
      if use.aliasName != "" {
        var bound := BindItem(m.program, from, use, resolved);
        if bound.Err? { return Err(bound.error); }
        m := m.(program := bound.value);
      }
    }
    return Ok(m);
  }

  method BindModuleAlias(m: Merging, alias: string, target: string, from: Program) returns (r: Merging)
    ensures r == BindAlias(m, alias, target, from)
  {
    var functions := BindAliasFunctions(m.program.functions, from.functions, alias, target);
    r := m.(aliases := m.aliases[alias := target],
            program := m.program.(
              functions := functions,
              concepts := MergeByName(m.program.concepts, Qualified(from.concepts, alias))));
  }

  lemma ApplyUsesNext(
    modules: map<string, Program>, program: Program, uses: seq<Use>, n: nat, current: string)
    requires n < |uses|
    ensures ApplyUses(modules, program, uses[..n + 1], current) ==
            match ApplyUses(modules, program, uses[..n], current)
            case Ok(m) => ApplyUse(modules, m, uses[n], current)
            case Err(error) => Err(error)
  {
    assert uses[..n + 1][..n] == uses[..n];
  }

  lemma {:induction false} ApplyUsesFail(
    modules: map<string, Program>, program: Program, uses: seq<Use>, n: nat, current: string)
    requires n <= |uses| && ApplyUses(modules, program, uses[..n], current).Err?
    ensures ApplyUses(modules, program, uses, current) == ApplyUses(modules, program, uses[..n], current)
    decreases |uses| - n
  {
    if n == |uses| {
      assert uses[..n] == uses;
    } else {
      ApplyUsesNext(modules, program, uses, n, current);
      ApplyUsesFail(modules, program, uses, n + 1, current);
    }
  }
}
