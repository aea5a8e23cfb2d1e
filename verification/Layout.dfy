/**
 Struct layout as the language service reports it: sizes and alignments computed by a recursion over
 type trees and struct definitions, with one shared set of the struct names being laid out.

 `StructLayout` and `TypeLayout` are the specification; `LayoutPass` holds the shared set as a field
 and computes the same values with loops.
 */
module Layout {
  import opened Wrappers

  datatype Kind =
    | KindVoid | KindBool | KindBit | KindInt | KindFloat | KindDouble | KindString | KindStr8 | KindStr16
    | KindList | KindMap | KindTuple | KindPtr | KindTraitObject | KindStruct
    | KindI8 | KindI16 | KindI32 | KindI64 | KindU8 | KindU16 | KindU32 | KindU64
    | KindRef | KindRefMut | KindFunction

  /** A type node; `NoType` is the null pointer, `Plain` a node told apart by its kind alone. */
  datatype Type =
    | NoType
    | StructRef(structName: string)
    | Pointer(pointee: Type)
    | Reference(referent: Type)
    | GenericList(element: Type)
    | PlainList
    | MapOf(key: Type, value: Type)
    | TupleOf(elems: seq<Type>)
    | Plain(kind: Kind)

  datatype Member = NullMember | Member(name: string, ty: Type)
  {
    predicate Skipped() { NullMember? || ty.NoType? }
  }

  datatype StructDef = StructDef(name: string, baseName: string, members: seq<Member>)

  datatype Program = Program(structs: seq<StructDef>)
  {
    function Find(name: string): (r: Option<StructDef>)
      ensures r.Some? <==> name in Names()
      ensures r.Some? ==> r.value.name == name && r.value in structs
    {
      FindIn(structs, name)
    }

    ghost function Names(): set<string> { set s | s in structs :: s.name }
  }

  /** The first definition of that name. */
  function FindIn(structs: seq<StructDef>, name: string): (r: Option<StructDef>)
    ensures r.Some? <==> exists s :: s in structs && s.name == name
    ensures r.Some? ==> r.value.name == name && r.value in structs
  {
    if structs == [] then None
    else if structs[0].name == name then Some(structs[0])
    else FindIn(structs[1..], name)
  }

  datatype LayoutInfo = LayoutInfo(size: nat, align: nat, ok: bool)

  const FAILED := LayoutInfo(0, 1, false)

  function Max(a: nat, b: nat): nat { if a < b then b else a }

  function AlignUp(value: nat, align: nat): nat {
    if align <= 1 then value
    else
      var rem := value % align;
      if rem == 0 then value else value + (align - rem)
  }

  predicate IsBitFieldType(t: Type) {
    t == Plain(KindBit) || t == StructRef("bit")
  }

  /** Scalars are aligned to their own size. */
  function KindLayout(k: Kind): (r: LayoutInfo)
    ensures r.ok && 0 < r.size <= 8 ==> r.size == r.align
    ensures r.size > 8 ==> r == LayoutInfo(16, 8, true) && (k.KindTraitObject? || k.KindFunction?)
    ensures !r.ok <==> k in {KindStruct, KindList, KindMap, KindTuple}
  {
    match k
    case KindVoid => LayoutInfo(0, 1, true)
    case KindBool | KindBit | KindI8 | KindU8 => LayoutInfo(1, 1, true)
    case KindI16 | KindU16 => LayoutInfo(2, 2, true)
    case KindInt | KindI32 | KindU32 | KindFloat => LayoutInfo(4, 4, true)
    case KindI64 | KindU64 | KindDouble | KindString | KindStr8 | KindStr16 | KindPtr | KindRef | KindRefMut =>
      LayoutInfo(8, 8, true)
    case KindTraitObject | KindFunction => LayoutInfo(16, 8, true)
    case KindStruct | KindList | KindMap | KindTuple => FAILED
  }

  /** The layout of a struct reference that names no struct of the program. */
  function BuiltinLayout(name: string): LayoutInfo {
    if name in {"bool", "bit", "i8", "u8"} then LayoutInfo(1, 1, true)
    else if name in {"i16", "u16"} then LayoutInfo(2, 2, true)
    else if name in {"i32", "u32", "f32"} then LayoutInfo(4, 4, true)
    else if name in {"i64", "u64", "f64", "str8", "str16"} then LayoutInfo(8, 8, true)
    else if "list<" <= name then LayoutInfo(16, 8, true)
    else if "map<" <= name then LayoutInfo(24, 8, true)
    else FAILED
  }

  // Packing: where each part goes once its own size and alignment are known.

  datatype Part = BitPart | WholePart(size: nat, align: nat)
  {
    function Align(): nat { if BitPart? then 1 else align }
  }

  datatype Cursor = Cursor(offset: nat, maxAlign: nat, packing: bool, bitsInByte: nat)
  {
    function Place(part: Part): Cursor {
      if part.BitPart? then
        if !packing || bitsInByte >= 8 then Cursor(AlignUp(offset, 1) + 1, Max(maxAlign, 1), true, 1)
        else Cursor(offset, Max(maxAlign, 1), true, bitsInByte + 1)
      else
        Cursor(AlignUp(offset, part.align) + part.size, Max(maxAlign, part.align), false, 0)
    }

    function Seal(): LayoutInfo { LayoutInfo(AlignUp(offset, maxAlign), maxAlign, true) }
  }

  function PlaceAll(c: Cursor, parts: seq<Part>): Cursor {
    if parts == [] then c else PlaceAll(c, parts[..|parts| - 1]).Place(parts[|parts| - 1])
  }

  lemma PlaceLast(c: Cursor, parts: seq<Part>, last: Part)
    ensures PlaceAll(c, parts + [last]) == PlaceAll(c, parts).Place(last)
  {
    assert (parts + [last])[..|parts|] == parts;
  }

  // The layout of types and structs.

  /** Where the members of `st` start: behind its base when the program has one. */
  function BaseCursor(base: LayoutInfo): Cursor { Cursor(base.size, Max(1, base.align), false, 0) }

  function BaseOf(p: Program, st: StructDef): (r: Option<StructDef>)
    ensures r.Some? ==> r.value.name in p.Names() && r.value.name == st.baseName
  {
    if st.baseName == "" then None else p.Find(st.baseName)
  }

  lemma {:induction false} RoomShrinks(p: Program, name: string, visiting: set<string>)
    requires name !in visiting
    ensures |p.Names() - (visiting + {name})| < |p.Names() + {name} - visiting|
  {
    assert p.Names() + {name} - visiting == (p.Names() - (visiting + {name})) + {name};
  }

  function BaseLayout(p: Program, st: StructDef, visiting: set<string>): LayoutInfo
    decreases |p.Names() - visiting|, 2, 0
  {
    match BaseOf(p, st)
    case None => LayoutInfo(0, 1, true)
    case Some(base) =>
      assert p.Names() + {base.name} - visiting == p.Names() - visiting;
      StructLayout(p, base, visiting)
  }

  function StructLayout(p: Program, st: StructDef, visiting: set<string>): LayoutInfo
    decreases |p.Names() + {st.name} - visiting|, 0, 0
  {
    if st.name in visiting then FAILED
    else
      RoomShrinks(p, st.name, visiting);
      var inside := visiting + {st.name};
      var base := BaseLayout(p, st, inside);
      if !base.ok then FAILED
      else
        match MemberParts(p, st.members, inside)
        case None => FAILED
        case Some(parts) => PlaceAll(BaseCursor(base), parts).Seal()
  }

  function MemberParts(p: Program, members: seq<Member>, visiting: set<string>): Option<seq<Part>>
    decreases |p.Names() - visiting|, 2, |members|
  {
    if members == [] then Some([])
    else
      var last := members[|members| - 1];
      match MemberParts(p, members[..|members| - 1], visiting)
      case None => None
      case Some(parts) =>
        if last.Skipped() then Some(parts)
        else
          var field := TypeLayout(p, last.ty, visiting);
          if field.ok then Some(parts + [MemberPart(last.ty, field)]) else None
  }

  function MemberPart(t: Type, field: LayoutInfo): Part {
    if IsBitFieldType(t) then BitPart else WholePart(field.size, field.align)
  }

  function TypeLayout(p: Program, t: Type, visiting: set<string>): LayoutInfo
    decreases |p.Names() - visiting|, 1, t, 1
  {
    match t
    case NoType => FAILED
    case StructRef(name) =>
      (match p.Find(name)
       case Some(st) =>
         assert p.Names() + {st.name} - visiting == p.Names() - visiting;
         StructLayout(p, st, visiting)
       case None => BuiltinLayout(name))
    case Pointer(_) => LayoutInfo(8, 8, true)
    case Reference(_) => LayoutInfo(8, 8, true)
    case GenericList(_) => LayoutInfo(16, 8, true)
    case PlainList => LayoutInfo(16, 8, true)
    case MapOf(_, _) => LayoutInfo(24, 8, true)
    case TupleOf(elems) =>
      (match ElementParts(p, elems, visiting)
       case None => FAILED
       case Some(parts) => PlaceAll(Cursor(0, 1, false, 0), parts).Seal())
    case Plain(kind) => KindLayout(kind)
  }

  function ElementParts(p: Program, elems: seq<Type>, visiting: set<string>): Option<seq<Part>>
    decreases |p.Names() - visiting|, 1, elems, 0
  {
    if elems == [] then Some([])
    else
      match ElementParts(p, elems[..|elems| - 1], visiting)
      case None => None
      case Some(parts) =>
        var elem := TypeLayout(p, elems[|elems| - 1], visiting);
        if elem.ok then Some(parts + [WholePart(elem.size, elem.align)]) else None
  }

  // The pass itself: one shared `visiting` set, inserted into and erased from.

  class LayoutPass {
    const program: Program
    var visiting: set<string>

    constructor (program: Program)
      ensures this.program == program && visiting == {}
    {
      this.program := program;
      visiting := {};
    }

    method ComputeStructLayout(st: StructDef) returns (info: LayoutInfo)
      modifies this
      ensures visiting == old(visiting)
      ensures info == StructLayout(program, st, old(visiting))
      decreases |program.Names() + {st.name} - visiting|, 0, 0
    {
      if st.name in visiting { return FAILED; }
      RoomShrinks(program, st.name, visiting);
      ghost var before := visiting;
      visiting := visiting + {st.name};
      ghost var inside := visiting;

      var offset: nat, maxAlign: nat := 0, 1;
      var base := BaseOf(program, st);
      if base.Some? {
        assert program.Names() + {base.value.name} - visiting == program.Names() - visiting;
        var baseInfo := ComputeStructLayout(base.value);
        if !baseInfo.ok {
          visiting := visiting - {st.name};
          assert visiting == before;
          return FAILED;
        }
        offset, maxAlign := baseInfo.size, Max(maxAlign, baseInfo.align);
      }
      assert BaseCursor(BaseLayout(program, st, inside)) == Cursor(offset, maxAlign, false, 0);
      var ok: bool;
      ok, offset, maxAlign := PackMembers(st.members, offset, maxAlign);
      visiting := visiting - {st.name};
      assert visiting == before;
      return if ok then LayoutInfo(AlignUp(offset, maxAlign), maxAlign, true) else FAILED;
    }

    /** The member loop: lays out each member's type and packs it behind what came before. */
    method PackMembers(members: seq<Member>, startOffset: nat, startAlign: nat)
      returns (ok: bool, offset: nat, maxAlign: nat)
      modifies this
      ensures visiting == old(visiting)
      ensures ok <==> MemberParts(program, members, visiting).Some?
      ensures ok ==>
                var end := PlaceAll(Cursor(startOffset, startAlign, false, 0),
                                    MemberParts(program, members, visiting).value);
                offset == end.offset && maxAlign == end.maxAlign
      decreases |program.Names() - visiting|, 2, |members|
    {
      ghost var start := Cursor(startOffset, startAlign, false, 0);
      ghost var parts: seq<Part> := [];
      offset, maxAlign := startOffset, startAlign;
      var packing: bool, bitsInByte: nat := false, 0;
      for i := 0 to |members|
        invariant visiting == old(visiting)
        invariant MemberParts(program, members[..i], visiting) == Some(parts)
        invariant PlaceAll(start, parts) == Cursor(offset, maxAlign, packing, bitsInByte)
      {
        var member := members[i];
        MemberPartsStep(program, members, i, visiting);
        if member.Skipped() { continue; }
        var field := ComputeTypeLayout(member.ty);
        if !field.ok {
          MemberPartsPrefix(program, members, i + 1, visiting);
          return false, offset, maxAlign;
        }
        PlaceLast(start, parts, MemberPart(member.ty, field));
        parts := parts + [MemberPart(member.ty, field)];
        if IsBitFieldType(member.ty) {
          maxAlign := Max(maxAlign, 1);
          if !packing || bitsInByte >= 8 {
            offset := AlignUp(offset, 1);
            offset := offset + 1;
            bitsInByte := 0;
            packing := true;
          }
          bitsInByte := bitsInByte + 1;
          continue;
        }
        packing, bitsInByte := false, 0;
        maxAlign := Max(maxAlign, field.align);
        offset := AlignUp(offset, field.align);
        offset := offset + field.size;
      }
      assert members[..|members|] == members;
      return true, offset, maxAlign;
    }

    method ComputeTypeLayout(t: Type) returns (info: LayoutInfo)
      modifies this
      ensures visiting == old(visiting)
      ensures info == TypeLayout(program, t, old(visiting))
      decreases |program.Names() - visiting|, 1, t
    {
      match t {
        case NoType => return FAILED;
        case StructRef(name) =>
          var st := program.Find(name);
          if st.Some? {
            assert program.Names() + {st.value.name} - visiting == program.Names() - visiting;
            info := ComputeStructLayout(st.value);
          } else {
            info := BuiltinLayout(name);
          }
        case Pointer(_) => return LayoutInfo(8, 8, true);
        case Reference(_) => return LayoutInfo(8, 8, true);
        case GenericList(_) => return LayoutInfo(16, 8, true);
        case PlainList => return LayoutInfo(16, 8, true);
        case MapOf(_, _) => return LayoutInfo(24, 8, true);
        case TupleOf(elems) => info := ComputeTupleLayout(elems);
        case Plain(kind) => return KindLayout(kind);
      }
    }

    /** The element loop of a tuple. */
    method ComputeTupleLayout(elems: seq<Type>) returns (info: LayoutInfo)
      modifies this
      ensures visiting == old(visiting)
      ensures info == match ElementParts(program, elems, visiting)
                      case None => FAILED
                      case Some(parts) => PlaceAll(Cursor(0, 1, false, 0), parts).Seal()
      decreases |program.Names() - visiting|, 1, elems
    {
      var offset: nat, maxAlign: nat := 0, 1;
      ghost var parts: seq<Part> := [];
      for i := 0 to |elems|
        invariant visiting == old(visiting)
        invariant ElementParts(program, elems[..i], visiting) == Some(parts)
        invariant PlaceAll(Cursor(0, 1, false, 0), parts) == Cursor(offset, maxAlign, false, 0)
      {
        assert elems[..i + 1][..i] == elems[..i];
        var elem := ComputeTypeLayout(elems[i]);
        if !elem.ok {
          ElementPartsPrefix(program, elems, i + 1, visiting);
          return FAILED;
        }
        PlaceLast(Cursor(0, 1, false, 0), parts, WholePart(elem.size, elem.align));
        parts := parts + [WholePart(elem.size, elem.align)];
        maxAlign := Max(maxAlign, elem.align);
        offset := AlignUp(offset, elem.align);
        offset := offset + elem.size;
      }
      assert elems[..|elems|] == elems;
      return LayoutInfo(AlignUp(offset, maxAlign), maxAlign, true);
    }
  }

  lemma MemberPartsStep(p: Program, members: seq<Member>, i: nat, visiting: set<string>)
    requires i < |members| && MemberParts(p, members[..i], visiting).Some?
    ensures MemberParts(p, members[..i + 1], visiting) ==
            if members[i].Skipped() then MemberParts(p, members[..i], visiting)
            else if TypeLayout(p, members[i].ty, visiting).ok
            then Some(MemberParts(p, members[..i], visiting).value
                      + [MemberPart(members[i].ty, TypeLayout(p, members[i].ty, visiting))])
            else None
  {
    assert members[..i + 1][..i] == members[..i];
  }

  lemma {:induction false} MemberPartsPrefix(p: Program, members: seq<Member>, i: nat, visiting: set<string>)
    requires i <= |members|
    requires MemberParts(p, members[..i], visiting).None?
    ensures MemberParts(p, members, visiting).None?
    decreases |members| - i
  {
    if i == |members| {
      assert members[..i] == members;
    } else {
      assert members[..i + 1][..i] == members[..i];
      MemberPartsPrefix(p, members, i + 1, visiting);
    }
  }

  lemma {:induction false} ElementPartsPrefix(p: Program, elems: seq<Type>, i: nat, visiting: set<string>)
    requires i <= |elems|
    requires ElementParts(p, elems[..i], visiting).None?
    ensures ElementParts(p, elems, visiting).None?
    decreases |elems| - i
  {
    if i == |elems| {
      assert elems[..i] == elems;
    } else {
      assert elems[..i + 1][..i] == elems[..i];
      ElementPartsPrefix(p, elems, i + 1, visiting);
    }
  }
}
