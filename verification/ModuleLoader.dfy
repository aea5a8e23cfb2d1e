/**
 The module loader: a depth-first load with a set of modules in progress and a map of loaded modules,
 followed by the `use` merge before a module is published.

 `Load` is the specification; `Loader` is the object whose `loadingStack` and `modules` the calls update.
 */
module ModuleLoader {
  import opened Wrappers
  import opened UseMerge

  /** The files the loader can see: module name to path, and path to the program it parses to. */
  datatype Files = Files(paths: map<string, string>, programs: map<string, Program>)
  {
    predicate Available(name: string) { name in paths && paths[name] in programs }

    /** The program of a module, its own functions tagged with the module's name. */
    function Source(name: string): Program
      requires Available(name)
    {
      var program := programs[paths[name]];
      program.(functions := TagAll(program.functions, name))
    }

    ghost function Unvisited(stack: set<string>): set<string> { paths.Keys - stack }
  }

  function TagAll(list: seq<Function>, moduleName: string): seq<Function> {
    seq(|list|, i requires 0 <= i < |list| => Tag(list[i], moduleName))
  }

  datatype LoadError =
    | Circular(name: string)
    | NotFound(name: string)
    | ParseFailed(name: string)
    | UseFailed(name: string, reason: UseError)

  /** Loaded modules, the order they were published in, and the module each of their `use`s imported. */
  datatype State = State(modules: map<string, Program>, order: seq<string>, imports: map<string, seq<string>>)
  {
    function Publish(name: string, merged: Merging): State {
      State(modules[name := merged.program], order + [name], imports[name := merged.targets])
    }
  }

  const EMPTY := State(map[], [], map[])

  function Load(files: Files, s: State, stack: set<string>, name: string): (State, Option<LoadError>)
    decreases |files.Unvisited(stack)|, 0, 0
  {
    if name in s.modules then (s, None)
    else if name in stack then (s, Some(Circular(name)))
    else if name !in files.paths then (s, Some(NotFound(name)))
    else if files.paths[name] !in files.programs then (s, Some(ParseFailed(name)))
    else
      var program := files.Source(name);
      OneMoreOnStack(files, stack, name);
      var (loaded, error) := LoadAll(files, s, stack + {name}, program.mods);
      if error.Some? then (loaded, error)
      else match ApplyUses(loaded.modules, program, program.uses, name)
        case Err(reason) => (loaded, Some(UseFailed(name, reason)))
        case Ok(merged) => (loaded.Publish(name, merged), None)
  }

  /** Load each of `mods` in turn, up to the first failure. */
  function LoadAll(files: Files, s: State, stack: set<string>, mods: seq<string>): (State, Option<LoadError>)
    decreases |files.Unvisited(stack)|, 1, |mods|
  {
    if mods == [] then (s, None)
    else
      var (loaded, error) := Load(files, s, stack, mods[0]);
      if error.Some? then (loaded, error) else LoadAll(files, loaded, stack, mods[1..])
  }

  lemma OneMoreOnStack(files: Files, stack: set<string>, name: string)
    requires name in files.paths && name !in stack
    ensures |files.Unvisited(stack + {name})| < |files.Unvisited(stack)|
  {
    assert files.Unvisited(stack) == files.Unvisited(stack + {name}) + {name};
  }

  class Loader {
    const files: Files
    var modules: map<string, Program>
    var loadingStack: set<string>
    ghost var order: seq<string>
    ghost var imports: map<string, seq<string>>

    ghost function View(): State
      reads this
    {
      State(modules, order, imports)
    }

    constructor (files: Files)
      ensures this.files == files && View() == EMPTY && loadingStack == {}
    {
      this.files := files;
      modules, loadingStack, order, imports := map[], {}, [], map[];
    }

    method LoadModule(name: string) returns (error: Option<LoadError>)
      modifies this
      ensures (View(), error) == Load(files, old(View()), old(loadingStack), name)
      ensures loadingStack == old(loadingStack)
      decreases |files.Unvisited(loadingStack)|, 0, 0
    {
      if name in modules { return None; }
      if name in loadingStack { return Some(Circular(name)); }
      if name !in files.paths { return Some(NotFound(name)); }
      OneMoreOnStack(files, loadingStack, name);
      ghost var before := loadingStack;
      loadingStack := loadingStack + {name};
      if files.paths[name] !in files.programs {
        loadingStack := loadingStack - {name};
        assert loadingStack == before;
        return Some(ParseFailed(name));
      }
      var program := files.Source(name);
      error := ProcessModDeclarations(program.mods);
      if error.Some? {
        loadingStack := loadingStack - {name};
        assert loadingStack == before;
        return error;
      }
      var merged := ProcessUseDeclarations(modules, program, name);
      if merged.Err? {
        loadingStack := loadingStack - {name};
        assert loadingStack == before;
        return Some(UseFailed(name, merged.error));
      }
      modules := modules[name := merged.value.program];
      order, imports := order + [name], imports[name := merged.value.targets];
      loadingStack := loadingStack - {name};
      assert loadingStack == before;
    }

    method ProcessModDeclarations(mods: seq<string>) returns (error: Option<LoadError>)
      modifies this
      ensures (View(), error) == LoadAll(files, old(View()), old(loadingStack), mods)
      ensures loadingStack == old(loadingStack)
      decreases |files.Unvisited(loadingStack)|, 1
    {
      for i := 0 to |mods|
        invariant loadingStack == old(loadingStack)
        invariant LoadAll(files, View(), loadingStack, mods[i..])
                  == LoadAll(files, old(View()), old(loadingStack), mods)
      {
        assert mods[i..][1..] == mods[i + 1..];
        error := LoadModule(mods[i]);
        if error.Some? { return error; }
      }
      return None;
    }
  }
}
