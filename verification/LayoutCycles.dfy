/**
 When a struct has a layout: exactly when no walk along "contains by value" and "extends" edges from it
 visits a name twice or reaches a definition holding a type without a layout.
 */
module LayoutCycles {
  import opened Wrappers
  import opened Sequences
  import opened Layout

  // The graph, read off the source text alone.

  /** The structs a value of this type contains; pointers, references, lists and maps contain none. */
  ghost function TypeDeps(p: Program, t: Type): set<string> {
    match t
    case StructRef(name) => if p.Find(name).Some? then {name} else {}
    case TupleOf(elems) => set e, d | e in elems && d in TypeDeps(p, e) :: d
    case _ => {}
  }

  /** Every type named in `t` outside pointers and containers is a struct of the program or a known type. */
  ghost predicate TypeKnown(p: Program, t: Type) {
    match t
    case NoType => false
    case StructRef(name) => p.Find(name).Some? || BuiltinLayout(name).ok
    case TupleOf(elems) => forall e :: e in elems ==> TypeKnown(p, e)
    case Plain(kind) => KindLayout(kind).ok
    case _ => true
  }

  ghost function Deps(p: Program, st: StructDef): set<string> {
    (if BaseOf(p, st).Some? then {st.baseName} else {})
    + set m, d | m in st.members && !m.Skipped() && d in TypeDeps(p, m.ty) :: d
  }

  ghost predicate Known(p: Program, st: StructDef) {
    forall m :: m in st.members && !m.Skipped() ==> TypeKnown(p, m.ty)
  }

  /** A walk from `st`: the names visited, starting with its own. */
  ghost predicate Walk(p: Program, st: StructDef, names: seq<string>)
    decreases |names|
  {
    && names != []
    && names[0] == st.name
    && (|names| > 1 ==>
          && names[1] in Deps(p, st)
          && p.Find(names[1]).Some?
          && Walk(p, p.Find(names[1]).value, names[1..]))
  }

  /** The definition a walk ends in. */
  ghost function End(p: Program, st: StructDef, names: seq<string>): StructDef
    requires Walk(p, st, names)
    decreases |names|
  {
    if |names| == 1 then st else End(p, p.Find(names[1]).value, names[1..])
  }

  ghost predicate Avoids(names: seq<string>, visiting: set<string>) {
    forall n :: n in names ==> n !in visiting
  }

  ghost predicate CycleReachable(p: Program, st: StructDef) {
    exists names :: Walk(p, st, names) && !Distinct(names)
  }

  ghost predicate UnknownTypeReachable(p: Program, st: StructDef) {
    exists names :: Walk(p, st, names) && !Known(p, End(p, st, names))
  }

  // Types: a layout exists exactly when every contained name has one.

  ghost predicate DepsOk(p: Program, deps: set<string>, visiting: set<string>) {
    forall d :: d in deps ==> p.Find(d).Some? && StructLayout(p, p.Find(d).value, visiting).ok
  }

  lemma {:induction false} TypeOk(p: Program, t: Type, visiting: set<string>)
    ensures TypeLayout(p, t, visiting).ok <==> TypeKnown(p, t) && DepsOk(p, TypeDeps(p, t), visiting)
    decreases t, 1
  {
    match t
    case TupleOf(elems) => ElementsOk(p, elems, visiting);
    case _ =>
  }

  lemma {:induction false} ElementsOk(p: Program, elems: seq<Type>, visiting: set<string>)
    ensures ElementParts(p, elems, visiting).Some? <==>
            forall e :: e in elems ==> TypeKnown(p, e) && DepsOk(p, TypeDeps(p, e), visiting)
    decreases elems, 0
  {
    if elems != [] {
      var front, last := elems[..|elems| - 1], elems[|elems| - 1];
      assert elems == front + [last];
      ElementsOk(p, front, visiting);
      TypeOk(p, last, visiting);
    }
  }

  lemma {:induction false} MembersOk(p: Program, members: seq<Member>, visiting: set<string>)
    ensures MemberParts(p, members, visiting).Some? <==>
            forall m :: m in members && !m.Skipped() ==> TypeKnown(p, m.ty) && DepsOk(p, TypeDeps(p, m.ty), visiting)
  {
    if members != [] {
      var front, last := members[..|members| - 1], members[|members| - 1];
      assert members == front + [last];
      MembersOk(p, front, visiting);
      if !last.Skipped() { TypeOk(p, last.ty, visiting); }
    }
  }

  lemma StructOk(p: Program, st: StructDef, visiting: set<string>)
    ensures StructLayout(p, st, visiting).ok <==>
            st.name !in visiting && Known(p, st) && DepsOk(p, Deps(p, st), visiting + {st.name})
  {
    if st.name !in visiting {
      MembersOk(p, st.members, visiting + {st.name});
    }
  }

  // Walks.

  lemma {:induction false} OkWalk(p: Program, st: StructDef, visiting: set<string>, names: seq<string>)
    requires StructLayout(p, st, visiting).ok
    requires Walk(p, st, names)
    ensures Distinct(names) && Avoids(names, visiting) && Known(p, End(p, st, names))
    decreases |names|
  {
    StructOk(p, st, visiting);
    if |names| > 1 {
      OkWalk(p, p.Find(names[1]).value, visiting + {st.name}, names[1..]);
      assert names == [st.name] + names[1..];
    }
  }

  /** A failed layout comes with the walk that broke it. */
  lemma {:induction false} FailedWalk(p: Program, st: StructDef, visiting: set<string>) returns (names: seq<string>)
    requires !StructLayout(p, st, visiting).ok
    ensures Walk(p, st, names)
    ensures !Distinct(names) || !Avoids(names, visiting) || !Known(p, End(p, st, names))
    decreases |p.Names() + {st.name} - visiting|
  {
    StructOk(p, st, visiting);
    names := [st.name];
    if st.name in visiting {
      assert names[0] in names;
    } else if Known(p, st) {
      var d :| d in Deps(p, st) && !(p.Find(d).Some? && StructLayout(p, p.Find(d).value, visiting + {st.name}).ok);
      DepsFound(p, st, d);
      var dep := p.Find(d).value;
      RoomShrinks(p, st.name, visiting);
      assert p.Names() + {dep.name} - (visiting + {st.name}) == p.Names() - (visiting + {st.name});
      var rest := FailedWalk(p, dep, visiting + {st.name});
      names := [st.name] + rest;
      assert names[1..] == rest;
      DefectStays(st.name, rest, visiting);
    }
  }

  lemma DefectStays(name: string, rest: seq<string>, visiting: set<string>)
    ensures !Distinct(rest) || !Avoids(rest, visiting + {name}) ==>
              !Distinct([name] + rest) || !Avoids([name] + rest, visiting)
  {
    var names := [name] + rest;
    if !Distinct(rest) {
      var i, j :| 0 <= i < j < |rest| && rest[i] == rest[j];
      assert names[i + 1] == names[j + 1];
    } else if !Avoids(rest, visiting + {name}) {
      var n :| n in rest && n in visiting + {name};
      var k :| 0 <= k < |rest| && rest[k] == n;
      assert names[k + 1] == n;
      if n == name { assert names[0] == names[k + 1]; }
    }
  }

  lemma {:induction false} TypeDepsFound(p: Program, t: Type, d: string)
    requires d in TypeDeps(p, t)
    ensures p.Find(d).Some?
    decreases t
  {
    if t.TupleOf? {
      var e :| e in t.elems && d in TypeDeps(p, e);
      TypeDepsFound(p, e, d);
    }
  }

  lemma DepsFound(p: Program, st: StructDef, d: string)
    requires d in Deps(p, st)
    ensures p.Find(d).Some?
  {
    if !(BaseOf(p, st).Some? && d == st.baseName) {
      var m :| m in st.members && !m.Skipped() && d in TypeDeps(p, m.ty);
      TypeDepsFound(p, m.ty, d);
    }
  }

  /** The characterisation: started with nothing in progress, a layout exists iff neither defect is reachable. */
  lemma LayoutExists(p: Program, st: StructDef)
    ensures StructLayout(p, st, {}).ok <==> !CycleReachable(p, st) && !UnknownTypeReachable(p, st)
  {
    if StructLayout(p, st, {}).ok {
      forall names | Walk(p, st, names)
        ensures Distinct(names) && Known(p, End(p, st, names))
      {
        OkWalk(p, st, {}, names);
      }
    } else {
      var names := FailedWalk(p, st, {});
    }
  }

  // A layout that exists does not depend on what was in progress.

  lemma {:induction false} StructStable(p: Program, st: StructDef, visiting: set<string>, fewer: set<string>)
    requires fewer <= visiting
    requires StructLayout(p, st, visiting).ok
    ensures StructLayout(p, st, fewer) == StructLayout(p, st, visiting)
    decreases |p.Names() + {st.name} - visiting|, 0, 0
  {
    RoomShrinks(p, st.name, visiting);
    var inside, inner := visiting + {st.name}, fewer + {st.name};
    if BaseOf(p, st).Some? {
      var base := BaseOf(p, st).value;
      assert p.Names() + {base.name} - inside == p.Names() - inside;
      StructStable(p, base, inside, inner);
    }
    MembersStable(p, st.members, inside, inner);
  }

  lemma {:induction false} MembersStable(p: Program, members: seq<Member>, visiting: set<string>, fewer: set<string>)
    requires fewer <= visiting
    requires MemberParts(p, members, visiting).Some?
    ensures MemberParts(p, members, fewer) == MemberParts(p, members, visiting)
    decreases |p.Names() - visiting|, 2, |members|
  {
    if members != [] {
      MembersStable(p, members[..|members| - 1], visiting, fewer);
      var last := members[|members| - 1];
      if !last.Skipped() { TypeStable(p, last.ty, visiting, fewer); }
    }
  }

  lemma {:induction false} TypeStable(p: Program, t: Type, visiting: set<string>, fewer: set<string>)
    requires fewer <= visiting
    requires TypeLayout(p, t, visiting).ok
    ensures TypeLayout(p, t, fewer) == TypeLayout(p, t, visiting)
    decreases |p.Names() - visiting|, 1, t, 1
  {
    match t
    case StructRef(name) =>
      if p.Find(name).Some? {
        assert p.Names() + {name} - visiting == p.Names() - visiting;
        StructStable(p, p.Find(name).value, visiting, fewer);
      }
    case TupleOf(elems) => ElementsStable(p, elems, visiting, fewer);
    case _ =>
  }

  lemma {:induction false} ElementsStable(p: Program, elems: seq<Type>, visiting: set<string>, fewer: set<string>)
    requires fewer <= visiting
    requires ElementParts(p, elems, visiting).Some?
    ensures ElementParts(p, elems, fewer) == ElementParts(p, elems, visiting)
    decreases |p.Names() - visiting|, 1, elems, 0
  {
    if elems != [] {
      ElementsStable(p, elems[..|elems| - 1], visiting, fewer);
      TypeStable(p, elems[|elems| - 1], visiting, fewer);
    }
  }
}
