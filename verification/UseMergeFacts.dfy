/** What merging keeps: no signature key is lost, none is doubled, and visibility only grows. */
module UseMergeFacts {
  import opened Wrappers
  import opened UseMerge

  ghost function Keys(list: seq<Function>): set<string> { set f | f in list :: f.Key() }

  /** Keys under which a public function can be found. */
  ghost function PublicKeys(list: seq<Function>): set<string> { set f | f in list && f.isPublic :: f.Key() }

  ghost predicate UniqueKeys(list: seq<Function>) {
    forall i, j :: 0 <= i < j < |list| ==> list[i].Key() != list[j].Key()
  }

  /** `after` holds everything `before` held, position by position, and more behind it. */
  ghost predicate Grows(before: seq<Function>, after: seq<Function>) {
    && |before| <= |after|
    && (forall i :: 0 <= i < |before| ==>
          after[i].Key() == before[i].Key() && (before[i].isPublic ==> after[i] == before[i]))
    && (UniqueKeys(before) ==> UniqueKeys(after))
  }

  lemma GrowsKeys(before: seq<Function>, after: seq<Function>)
    requires Grows(before, after)
    ensures Keys(before) <= Keys(after) && PublicKeys(before) <= PublicKeys(after)
  {
    forall f | f in before
      ensures f.Key() in Keys(after)
      ensures f.isPublic ==> f.Key() in PublicKeys(after)
    {
      var i :| 0 <= i < |before| && before[i] == f;
      assert after[i] in after;
    }
  }

  lemma GrowsTransitive(a: seq<Function>, b: seq<Function>, c: seq<Function>)
    requires Grows(a, b) && Grows(b, c)
    ensures Grows(a, c)
  {
  }

  lemma MergeFunctionFacts(list: seq<Function>, func: Function)
    requires MergeFunction(list, func).Ok?
    ensures
      var after := MergeFunction(list, func).value;
      && Grows(list, after)
      && Keys(after) == Keys(list) + {func.Key()}
      && (func.isPublic ==> func.Key() in PublicKeys(after))
      && (forall f :: f in after ==> f in list || f == func)
  {
    var after := MergeFunction(list, func).value;
    var i := FindKey(list, func.Key());
    if i == |list| {
      assert after == list + [func];
    } else {
      assert list[i] in list && after[i] in after;
      forall k | k in Keys(after)
        ensures k in Keys(list) + {func.Key()}
      {
        var j :| 0 <= j < |after| && after[j].Key() == k;
        assert list[j] in list;
      }
    }
    GrowsKeys(list, after);
    assert func.Key() in Keys(after);
  }

  lemma {:induction false} MergeFunctionsGrows(list: seq<Function>, incoming: seq<Function>, moduleName: string)
    requires MergeFunctions(list, incoming, moduleName).Ok?
    ensures Grows(list, MergeFunctions(list, incoming, moduleName).value)
  {
    if incoming != [] {
      MergeFunctionsGrows(list, incoming[..|incoming| - 1], moduleName);
      var middle := MergeFunctions(list, incoming[..|incoming| - 1], moduleName).value;
      MergeFunctionFacts(middle, Tag(incoming[|incoming| - 1], moduleName));
      GrowsTransitive(list, middle, MergeFunctions(list, incoming, moduleName).value);
    }
  }

  lemma {:induction false} MergeFunctionsKeys(list: seq<Function>, incoming: seq<Function>, moduleName: string)
    requires MergeFunctions(list, incoming, moduleName).Ok?
    ensures
      var after := MergeFunctions(list, incoming, moduleName).value;
      && Keys(after) == Keys(list) + Keys(incoming)
      && PublicKeys(after) == PublicKeys(list) + PublicKeys(incoming)
  {
    if incoming != [] {
      var front, last := incoming[..|incoming| - 1], incoming[|incoming| - 1];
      assert incoming == front + [last];
      MergeFunctionsKeys(list, front, moduleName);
      var middle := MergeFunctions(list, front, moduleName).value;
      MergeStepKeys(middle, Tag(last, moduleName));
      KeysSplit(front, last);
      Reassociate(Keys(list), Keys(front), {last.Key()});
      Reassociate(PublicKeys(list), PublicKeys(front), if last.isPublic then {last.Key()} else {});
    }
  }

  lemma Reassociate(a: set<string>, b: set<string>, c: set<string>)
    ensures (a + b) + c == a + (b + c)
  {
  }

  lemma MergeStepKeys(list: seq<Function>, func: Function)
    requires MergeFunction(list, func).Ok?
    ensures
      var after := MergeFunction(list, func).value;
      && Keys(after) == Keys(list) + {func.Key()}
      && PublicKeys(after) == PublicKeys(list) + (if func.isPublic then {func.Key()} else {})
  {
    MergeFunctionFacts(list, func);
    GrowsKeys(list, MergeFunction(list, func).value);
  }

  /**
   Merging a module's functions: the keys are exactly the union; entries keep their places; unique keys
   stay unique; a key is public afterwards exactly when it was public on either side.
   */
  lemma MergeFunctionsFacts(list: seq<Function>, incoming: seq<Function>, moduleName: string)
    requires MergeFunctions(list, incoming, moduleName).Ok?
    ensures
      var after := MergeFunctions(list, incoming, moduleName).value;
      && Grows(list, after)
      && Keys(after) == Keys(list) + Keys(incoming)
      && PublicKeys(after) == PublicKeys(list) + PublicKeys(incoming)
  {
    MergeFunctionsGrows(list, incoming, moduleName);
    MergeFunctionsKeys(list, incoming, moduleName);
  }

  lemma KeysSplit(front: seq<Function>, last: Function)
    ensures Keys(front + [last]) == Keys(front) + {last.Key()}
    ensures PublicKeys(front + [last]) == PublicKeys(front) + if last.isPublic then {last.Key()} else {}
  {
    var all := front + [last];
    assert forall f :: f in all <==> f in front || f == last;
    forall k | k in Keys(front) + {last.Key()}
      ensures k in Keys(all)
    {
      var f :| f in all && f.Key() == k;
    }
    forall k | k in PublicKeys(front) + (if last.isPublic then {last.Key()} else {})
      ensures k in PublicKeys(all)
    {
      var f :| f in all && f.isPublic && f.Key() == k;
    }
  }

  lemma AddIfNewGrows(list: seq<Function>, func: Function)
    ensures Grows(list, AddIfNew(list, func))
    ensures func.Key() in Keys(AddIfNew(list, func))
  {
    var i := FindKey(list, func.Key());
    if i < |list| { assert list[i] in list; } else { assert AddIfNew(list, func)[|list|] == func; }
  }

  /** Binding a module alias keeps the list and makes every named function reachable under the alias. */
  lemma {:induction false} AddQualifiedFacts(
    list: seq<Function>, incoming: seq<Function>, alias: string, moduleName: string)
    ensures Grows(list, AddQualified(list, incoming, alias, moduleName))
    ensures forall f :: f in incoming && f.name != "" ==>
              alias + "::" + f.Key() in Keys(AddQualified(list, incoming, alias, moduleName))
  {
    if incoming != [] {
      var front, last := incoming[..|incoming| - 1], incoming[|incoming| - 1];
      assert incoming == front + [last];
      AddQualifiedFacts(list, front, alias, moduleName);
      var before := AddQualified(list, front, alias, moduleName);
      if last.name != "" {
        var copy := Tag(last.(name := alias + "::" + last.name), moduleName);
        assert copy.Key() == alias + "::" + last.Key();
        AddIfNewGrows(before, copy);
        GrowsTransitive(list, before, AddIfNew(before, copy));
        GrowsKeys(before, AddIfNew(before, copy));
      }
    }
  }

  /** The program after `use` holds every key of the imported module, public where the module's was. */
  ghost predicate Imported(program: Program, from: Program) {
    Keys(from.functions) <= Keys(program.functions) && PublicKeys(from.functions) <= PublicKeys(program.functions)
  }

  lemma ImportedStays(before: Program, after: Program, from: Program)
    requires Imported(before, from) && Grows(before.functions, after.functions)
    ensures Imported(after, from)
  {
    GrowsKeys(before.functions, after.functions);
  }

  /** The program keeps its declarations, every entry of its function list, and its structs, enums and aliases. */
  ghost predicate Kept(before: Program, after: Program) {
    && Grows(before.functions, after.functions) && after.mods == before.mods && after.uses == before.uses
    && before.structs <= after.structs && before.enums <= after.enums && before.typeAliases <= after.typeAliases
  }

  lemma KeptTransitive(a: Program, b: Program, c: Program)
    requires Kept(a, b) && Kept(b, c)
    ensures Kept(a, c)
  {
    GrowsTransitive(a.functions, b.functions, c.functions);
  }

  lemma MergeSymbolsKept(program: Program, from: Program)
    ensures Kept(program, MergeSymbols(program, from))
  {
    MergeByNameFacts(program.structs, from.structs, "");
    MergeByNameFacts(program.enums, from.enums, "");
    MergeByNameFacts(program.typeAliases, from.typeAliases, "");
  }

  lemma MergeModuleFacts(m: Merging, from: Program, alias: Option<string>, resolved: string)
    requires MergeModule(m, from, alias, resolved).Ok?
    ensures
      var after := MergeModule(m, from, alias, resolved).value;
      && after.targets == m.targets + [resolved]
      && Kept(m.program, after.program) && Imported(after.program, from)
  {
    var bound := if alias.Some? then BindAlias(m, alias.value, resolved, from) else m;
    if alias.Some? { AddQualifiedFacts(m.program.functions, from.functions, alias.value, resolved); }
    MergeFunctionsFacts(bound.program.functions, from.functions, resolved);
    var merged := MergeFunctions(bound.program.functions, from.functions, resolved).value;
    GrowsTransitive(m.program.functions, bound.program.functions, merged);
    MergeSymbolsKept(bound.program.(functions := merged), from);
  }

  lemma ApplyUseFacts(modules: map<string, Program>, m: Merging, use: Use, current: string)
    requires ApplyUse(modules, m, use, current).Ok?
    ensures
      var after := ApplyUse(modules, m, use, current).value;
      && Target(modules, m, use).0 in modules
      && after.targets == m.targets + [Target(modules, m, use).0]
      && Imported(after.program, modules[Target(modules, m, use).0])
      && Kept(m.program, after.program)
  {
    var (resolved, aliased) := Target(modules, m, use);
    var from := modules[resolved];
    var alias := if aliased then Some(use.aliasName) else None;
    MergeModuleFacts(m, from, alias, resolved);
    var merged := MergeModule(m, from, alias, resolved).value;
    if !use.importAll && !aliased && use.aliasName != "" {
      ItemAliased(merged.program, from, use, resolved);
      var program := BindItem(merged.program, from, use, resolved).value;
      KeptTransitive(m.program, merged.program, program);
      ImportedStays(merged.program, program, from);
    }
  }

  /** After all `use` declarations of a program, every one of their targets is loaded and fully imported. */
  lemma {:induction false} ApplyUsesFacts(
    modules: map<string, Program>, program: Program, uses: seq<Use>, current: string)
    requires ApplyUses(modules, program, uses, current).Ok?
    ensures
      var m := ApplyUses(modules, program, uses, current).value;
      && |m.targets| == |uses|
      && (forall t :: t in m.targets ==> t in modules && Imported(m.program, modules[t]))
      && Kept(program, m.program)
  {
    if uses != [] {
      var front, last := uses[..|uses| - 1], uses[|uses| - 1];
      ApplyUsesFacts(modules, program, front, current);
      var before := ApplyUses(modules, program, front, current).value;
      ApplyUseFacts(modules, before, last, current);
      var after := ApplyUse(modules, before, last, current).value;
      KeptTransitive(program, before.program, after.program);
      forall t | t in before.targets
        ensures Imported(after.program, modules[t])
      {
        ImportedStays(before.program, after.program, modules[t]);
      }
    }
  }

  /** The i-th target is the module that the i-th `use` named, with the aliases bound before it. */
  lemma {:induction false} TargetsMatch(
    modules: map<string, Program>, program: Program, uses: seq<Use>, current: string, i: nat)
    requires ApplyUses(modules, program, uses, current).Ok? && i < |uses|
    ensures |ApplyUses(modules, program, uses, current).value.targets| == |uses|
    ensures ApplyUses(modules, program, uses[..i], current).Ok?
    ensures ApplyUses(modules, program, uses, current).value.targets[i]
            == Target(modules, ApplyUses(modules, program, uses[..i], current).value, uses[i]).0
    decreases |uses|
  {
    var front, last := uses[..|uses| - 1], uses[|uses| - 1];
    ApplyUsesFacts(modules, program, uses, current);
    ApplyUsesFacts(modules, program, front, current);
    ApplyUseFacts(modules, ApplyUses(modules, program, front, current).value, last, current);
    if i < |front| {
      TargetsMatch(modules, program, front, current, i);
      assert front[..i] == uses[..i];
    }
  }

  // Single items: who may import them, and what an item alias binds.

  /** The symbol lists, in the order in which an item is looked for. */
  datatype SymbolList = Functions | Structs | TypeAliases | Enums | Concepts | Traits

  const LOOKUP: seq<SymbolList> := [Functions, Structs, TypeAliases, Enums, Concepts, Traits]

  ghost predicate HasFunction(from: Program, item: string) { exists f :: f in from.functions && f.name == item }

  ghost predicate InList(from: Program, list: SymbolList, item: string) {
    match list
    case Functions => HasFunction(from, item)
    case Structs => HasName(from.structs, item)
    case TypeAliases => HasName(from.typeAliases, item)
    case Enums => HasName(from.enums, item)
    case Concepts => HasName(from.concepts, item)
    case Traits => HasName(from.traits, item)
  }

  /** The list that decides about an item: the first one that has it. */
  ghost predicate Decides(from: Program, list: SymbolList, item: string) {
    InList(from, list, item)
    && exists k :: 0 <= k < |LOOKUP| && LOOKUP[k] == list
                   && forall j :: 0 <= j < k ==> !InList(from, LOOKUP[j], item)
  }

  ghost predicate PublicIn(list: seq<Symbol>, item: string) {
    FirstNamed(list, item).Some? && FirstNamed(list, item).value.isPublic
  }

  /**
   Whether the item of a list may be imported: some overload of a function, or the first struct, enum or concept
   of that name, is public, or the modules are of one family. Aliases and traits are open to all; for concepts the
   family makes no difference.
   */
  ghost predicate Visible(from: Program, list: SymbolList, item: string, family: bool) {
    match list
    case Functions => family || exists f :: f in from.functions && f.name == item && f.isPublic
    case Structs => family || PublicIn(from.structs, item)
    case TypeAliases => true
    case Enums => family || PublicIn(from.enums, item)
    case Concepts => PublicIn(from.concepts, item)
    case Traits => true
  }

  /** The visibility check, for every module, item and pair of module names. */
  lemma ItemChecked(from: Program, use: Use, current: string, resolved: string)
    ensures
      var item, family := use.itemName, SameModuleFamily(current, resolved);
      && (CheckItem(from, use, current, resolved).None? <==>
            exists list :: Decides(from, list, item) && Visible(from, list, item, family))
      && (CheckItem(from, use, current, resolved) == Some(PrivateItem(item, resolved)) <==>
            exists list :: Decides(from, list, item) && !Visible(from, list, item, family))
      && (CheckItem(from, use, current, resolved) == Some(ItemNotFound(item, resolved)) <==>
            forall list :: !InList(from, list, item))
  {
    var item := use.itemName;
    if exists list :: InList(from, list, item) {
      var list := DecidingList(from, item);
      assert Decides(from, list, item);
      OneDecides(from, item);
      DecidedCheck(from, use, current, resolved, list);
    } else {
      assert !InList(from, Functions, item) && !InList(from, Structs, item) && !InList(from, TypeAliases, item);
      assert !InList(from, Enums, item) && !InList(from, Concepts, item) && !InList(from, Traits, item);
    }
  }

  lemma DecidedCheck(from: Program, use: Use, current: string, resolved: string, list: SymbolList)
    requires Decides(from, list, use.itemName)
    ensures CheckItem(from, use, current, resolved) ==
            if Visible(from, list, use.itemName, SameModuleFamily(current, resolved)) then None
            else Some(PrivateItem(use.itemName, resolved))
  {
    assert LOOKUP[0] == Functions && LOOKUP[1] == Structs && LOOKUP[2] == TypeAliases;
    assert LOOKUP[3] == Enums && LOOKUP[4] == Concepts && LOOKUP[5] == Traits;
  }

  lemma DecidingList(from: Program, item: string) returns (list: SymbolList)
    requires exists list :: InList(from, list, item)
    ensures Decides(from, list, item)
  {
    var some :| InList(from, some, item);
    var n := PlaceInLookup(some);
    var k := 0;
    while k < n && !InList(from, LOOKUP[k], item)
      invariant 0 <= k <= n
      invariant forall j :: 0 <= j < k ==> !InList(from, LOOKUP[j], item)
    {
      k := k + 1;
    }
    list := LOOKUP[k];
  }

  lemma PlaceInLookup(list: SymbolList) returns (k: nat)
    ensures k < |LOOKUP| && LOOKUP[k] == list
  {
    k := match list
      case Functions => 0 case Structs => 1 case TypeAliases => 2 case Enums => 3 case Concepts => 4 case Traits => 5;
  }

  lemma OneDecides(from: Program, item: string)
    ensures forall a, b :: Decides(from, a, item) && Decides(from, b, item) ==> a == b
  {
  }

  /** An item alias makes every overload of the item reachable under the alias, by key. */
  lemma {:induction false} AddRenamedFacts(
    list: seq<Function>, incoming: seq<Function>, item: string, alias: string, moduleName: string)
    ensures Grows(list, AddRenamed(list, incoming, item, alias, moduleName))
    ensures forall f :: f in incoming && f.name == item ==>
              alias + f.shape in Keys(AddRenamed(list, incoming, item, alias, moduleName))
  {
    if incoming != [] {
      var front, last := incoming[..|incoming| - 1], incoming[|incoming| - 1];
      assert incoming == front + [last];
      AddRenamedFacts(list, front, item, alias, moduleName);
      var before := AddRenamed(list, front, item, alias, moduleName);
      if last.name == item {
        var copy := Tag(last.(name := alias), moduleName);
        AddIfNewGrows(before, copy);
        GrowsTransitive(list, before, AddIfNew(before, copy));
        GrowsKeys(before, AddIfNew(before, copy));
      }
    }
  }

  /** Only functions, concepts, structs and enums can be aliased, and then the alias names the item. */
  lemma ItemAliased(program: Program, from: Program, use: Use, resolved: string)
    ensures
      var item, alias := use.itemName, use.aliasName;
      var bound := BindItem(program, from, use, resolved);
      && (bound.Ok? <==> HasFunction(from, item) || HasName(from.concepts, item) || HasName(from.structs, item)
                         || HasName(from.enums, item))
      && (bound.Err? ==> bound.error == CannotAlias(item, resolved))
      && (bound.Ok? ==>
            && Kept(program, bound.value)
            && (forall f :: f in from.functions && f.name == item ==> alias + f.shape in Keys(bound.value.functions))
            && (HasName(from.concepts, item) ==> HasName(bound.value.concepts, alias))
            && (!HasFunction(from, item) && !HasName(from.concepts, item) ==> HasName(bound.value.typeAliases, alias)))
  {
    AddRenamedFacts(program.functions, from.functions, use.itemName, use.aliasName, resolved);
    AliasKnown(program.typeAliases, use.aliasName);
    if HasName(from.concepts, use.itemName) {
      var s := FirstNamed(from.concepts, use.itemName).value;
      assert s.(name := use.aliasName) in program.concepts + [s.(name := use.aliasName)];
    }
  }

  lemma AliasKnown(list: seq<Symbol>, alias: string)
    ensures HasName(MergeByName(list, [Symbol(alias, false)]), alias)
    ensures list <= MergeByName(list, [Symbol(alias, false)])
  {
    MergeByNameFacts(list, [Symbol(alias, false)], alias);
    assert Symbol(alias, false) in [Symbol(alias, false)];
  }

  /**
   A `use` of a single item of a loaded module, once the module's functions are merged: it succeeds exactly when the
   item may be imported and, if it has an alias, can have one.
   */
  lemma ItemUse(modules: map<string, Program>, m: Merging, use: Use, current: string)
    requires !use.importAll && !use.moduleAlias
    requires Target(modules, m, use) == (ResolveAlias(m.aliases, use.moduleName), false)
    requires ResolveAlias(m.aliases, use.moduleName) in modules
    requires MergeModule(m, modules[Target(modules, m, use).0], None, Target(modules, m, use).0).Ok?
    ensures
      var resolved, item := Target(modules, m, use).0, use.itemName;
      var from := modules[resolved];
      ApplyUse(modules, m, use, current).Ok? <==>
        && (exists list :: Decides(from, list, item)
                           && Visible(from, list, item, SameModuleFamily(current, resolved)))
        && (use.aliasName == "" || HasFunction(from, item) || HasName(from.concepts, item)
            || HasName(from.structs, item) || HasName(from.enums, item))
  {
    var resolved := Target(modules, m, use).0;
    var from := modules[resolved];
    ItemChecked(from, use, current, resolved);
    ItemAliased(MergeModule(m, from, None, resolved).value.program, from, use, resolved);
  }

  // The other symbol lists, and alias names.

  /** Merging by name keeps the list in front, first definitions winning, and makes every name of both lists known. */
  lemma {:induction false} MergeByNameFacts(list: seq<Symbol>, incoming: seq<Symbol>, name: string)
    ensures list <= MergeByName(list, incoming)
    ensures HasName(MergeByName(list, incoming), name) <==> HasName(list, name) || HasName(incoming, name)
    ensures HasName(list, name) ==> FirstNamed(MergeByName(list, incoming), name) == FirstNamed(list, name)
    decreases |incoming|
  {
    if incoming != [] {
      var head := incoming[0];
      var next := if HasName(list, head.name) then list else list + [head];
      assert incoming == [head] + incoming[1..];
      MergeByNameFacts(next, incoming[1..], name);
      FirstNamedStays(list, next, name);
    }
  }

  lemma {:induction false} FirstNamedStays(list: seq<Symbol>, more: seq<Symbol>, name: string)
    requires list <= more
    ensures HasName(list, name) ==> FirstNamed(more, name) == FirstNamed(list, name)
  {
    if list != [] {
      assert list[1..] <= more[1..];
      FirstNamedStays(list[1..], more[1..], name);
      assert more[0] == list[0];
    }
  }

  /** A bound alias stands for its module in every path that starts with it. */
  lemma AliasResolves(aliases: map<string, string>, alias: string, target: string, rest: string)
    requires ':' !in alias
    ensures ResolveAlias(aliases[alias := target], alias) == target
    ensures ResolveAlias(aliases[alias := target], alias + "::" + rest) == target + "::" + rest
  {
    var path := alias + ("::" + rest);
    HeadIs(alias, "");
    HeadIs(alias, "::" + rest);
    assert alias + "" == alias && alias[..|alias|] == alias && target + alias[|alias|..] == target;
    assert path == alias + "::" + rest && path[..|alias|] == alias && path[|alias|..] == "::" + rest;
  }

  lemma {:induction false} HeadIs(head: string, tail: string)
    requires ':' !in head && (tail == "" || "::" <= tail)
    ensures HeadLength(head + tail) == |head|
  {
    var all := head + tail;
    if head != "" {
      assert all[1..] == head[1..] + tail && all[0] == head[0];
      HeadIs(head[1..], tail);
    } else {
      assert all == tail;
    }
  }
}
