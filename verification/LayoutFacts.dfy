/**
 Where a struct layout puts things: alignment, disjointness, bit packing, padding and total size; and the
 per-field sizes of the layout summary.
 */
module LayoutFacts {
  import opened Wrappers
  import opened Layout
  import opened LayoutCycles

  const ALIGNMENTS: set<nat> := {1, 2, 4, 8}

  lemma AlignUpFacts(value: nat, align: nat)
    requires align in ALIGNMENTS
    ensures value <= AlignUp(value, align) < value + align
    ensures AlignUp(value, align) % align == 0
  {
  }

  ghost predicate Multiple(n: int, align: nat) {
    align > 0 && n % align == 0
  }

  ghost predicate Aligned(parts: seq<Part>) {
    forall part :: part in parts ==> part.Align() in ALIGNMENTS
  }

  /** The cursor just before part `i` is placed. */
  ghost function Before(c: Cursor, parts: seq<Part>, i: nat): Cursor
    requires i <= |parts|
  {
    PlaceAll(c, parts[..i])
  }

  /** The end of part `i`; for a bit, the end of the byte it lives in. */
  ghost function Finish(c: Cursor, parts: seq<Part>, i: nat): nat
    requires i < |parts|
  {
    Before(c, parts, i + 1).offset
  }

  ghost function Start(c: Cursor, parts: seq<Part>, i: nat): int
    requires i < |parts|
  {
    Finish(c, parts, i) - if parts[i].BitPart? then 1 else parts[i].size
  }

  /** The bit of its byte that bit member `i` takes. */
  ghost function Slot(c: Cursor, parts: seq<Part>, i: nat): int
    requires i < |parts|
  {
    Before(c, parts, i + 1).bitsInByte - 1
  }

  lemma BeforeNext(c: Cursor, parts: seq<Part>, i: nat)
    requires i < |parts|
    ensures Before(c, parts, i + 1) == Before(c, parts, i).Place(parts[i])
  {
    assert parts[..i + 1][..i] == parts[..i];
  }

  lemma {:induction false} CursorMoves(c: Cursor, parts: seq<Part>, i: nat, j: nat)
    requires Aligned(parts) && i <= j <= |parts|
    requires c.maxAlign in ALIGNMENTS
    ensures Before(c, parts, i).offset <= Before(c, parts, j).offset
    ensures Before(c, parts, i).maxAlign <= Before(c, parts, j).maxAlign
    ensures Before(c, parts, j).maxAlign in ALIGNMENTS
    decreases j
  {
    if j > 0 {
      assert parts[j - 1] in parts;
      BeforeNext(c, parts, j - 1);
      if !parts[j - 1].BitPart? { AlignUpFacts(Before(c, parts, j - 1).offset, parts[j - 1].align); }
      CursorMoves(c, parts, if i < j then i else 0, j - 1);
    }
  }

  /** The struct alignment is attained: by the start cursor or by a part. */
  lemma {:induction false} MaxAlignAttained(c: Cursor, parts: seq<Part>)
    requires c.maxAlign >= 1
    ensures forall part :: part in parts ==> part.Align() <= PlaceAll(c, parts).maxAlign
    ensures c.maxAlign <= PlaceAll(c, parts).maxAlign
    ensures PlaceAll(c, parts).maxAlign == c.maxAlign
            || exists part :: part in parts && part.Align() == PlaceAll(c, parts).maxAlign
  {
    if parts != [] {
      var front, last := parts[..|parts| - 1], parts[|parts| - 1];
      MaxAlignAttained(c, front);
      assert parts == front + [last];
      if PlaceAll(c, parts).maxAlign == last.Align() {
        assert last in parts;
      } else if PlaceAll(c, front).maxAlign != c.maxAlign {
        var part :| part in front && part.Align() == PlaceAll(c, front).maxAlign;
        assert part in parts;
      }
    }
  }

  lemma PartPlaced(c: Cursor, parts: seq<Part>, i: nat)
    requires Aligned(parts) && i < |parts| && c.maxAlign in ALIGNMENTS
    ensures c.offset <= Before(c, parts, i).offset
    ensures parts[i].WholePart? ==>
              && Multiple(Start(c, parts, i), parts[i].align)
              && Before(c, parts, i).offset <= Start(c, parts, i) < Before(c, parts, i).offset + parts[i].align
    ensures parts[i].BitPart? ==>
              Start(c, parts, i) ==
                if Before(c, parts, i).packing && Before(c, parts, i).bitsInByte < 8
                then Before(c, parts, i).offset - 1 else Before(c, parts, i).offset
  {
    assert parts[i] in parts;
    CursorMoves(c, parts, 0, i);
    BeforeNext(c, parts, i);
    if parts[i].WholePart? { AlignUpFacts(Before(c, parts, i).offset, parts[i].align); }
  }

  /** A bit run in progress sits in the last byte laid out so far. */
  lemma {:induction false} PackingMeansBit(c: Cursor, parts: seq<Part>, i: nat)
    requires i <= |parts| && !c.packing
    ensures Before(c, parts, i).packing <==> i > 0 && parts[i - 1].BitPart?
    ensures Before(c, parts, i).packing ==> 1 <= Before(c, parts, i).bitsInByte <= 8
    decreases i
  {
    if i > 0 {
      BeforeNext(c, parts, i - 1);
      PackingMeansBit(c, parts, i - 1);
    }
  }

  /**
   Parts never overlap: two parts take disjoint byte ranges, unless both are bits of one byte, and then
   they take different bits of it, in order.
   */
  lemma PartsDisjoint(c: Cursor, parts: seq<Part>, i: nat, j: nat)
    requires Aligned(parts) && i < j < |parts| && c.maxAlign in ALIGNMENTS && !c.packing
    ensures Finish(c, parts, i) <= Start(c, parts, j)
            || (&& parts[i].BitPart? && parts[j].BitPart?
                && Start(c, parts, i) == Start(c, parts, j)
                && 0 <= Slot(c, parts, i) < Slot(c, parts, j) < 8)
    decreases j - i
  {
    CursorMoves(c, parts, i + 1, j);
    PartPlaced(c, parts, j);
    PackingMeansBit(c, parts, j);
    BeforeNext(c, parts, j);
    var before := Before(c, parts, j);
    if parts[j].BitPart? && before.packing && before.bitsInByte < 8 {
      assert parts[j - 1].BitPart?;
      BeforeNext(c, parts, j - 1);
      assert Start(c, parts, j - 1) == Start(c, parts, j);
      PackingMeansBit(c, parts, j - 1);
      if i < j - 1 { PartsDisjoint(c, parts, i, j - 1); }
    }
  }

  /** Where the nth bit of a run goes, from where the one before it went. */
  lemma NextBit(n: nat)
    requires n > 0
    ensures (n - 1) % 8 == if n == 1 || (n - 2) % 8 == 7 then 0 else (n - 2) % 8 + 1
    ensures (n + 7) / 8 == (n + 6) / 8 + if (n - 1) % 8 == 0 then 1 else 0
    ensures (n + 7) / 8 == (n - 1) / 8 + 1
  {
  }

  /** Bit `k` of a maximal run of bits goes to byte `k / 8` of the run, bit `k % 8`; n bits take ceil(n / 8) bytes. */
  lemma {:induction false} BitRun(c: Cursor, parts: seq<Part>, first: nat, n: nat)
    requires first + n <= |parts| && !c.packing
    requires forall k :: first <= k < first + n ==> parts[k].BitPart?
    requires first == 0 || parts[first - 1].WholePart?
    ensures Before(c, parts, first + n).offset == Before(c, parts, first).offset + (n + 7) / 8
    ensures n > 0 ==> Before(c, parts, first + n).packing
                      && Before(c, parts, first + n).bitsInByte == (n - 1) % 8 + 1
    ensures n > 0 ==>
              && Start(c, parts, first + n - 1) == Before(c, parts, first).offset + (n - 1) / 8
              && Slot(c, parts, first + n - 1) == (n - 1) % 8
    decreases n
  {
    if n == 0 {
      PackingMeansBit(c, parts, first);
    } else {
      BitRun(c, parts, first, n - 1);
      PackingMeansBit(c, parts, first);
      NextBit(n);
      BeforeNext(c, parts, first + n - 1);
    }
  }

  // Every layout has a power-of-two alignment and a size that is a multiple of it.

  ghost predicate WellFormed(info: LayoutInfo) {
    info.ok ==> info.align in ALIGNMENTS && info.size % info.align == 0
  }

  lemma SealWellFormed(c: Cursor, parts: seq<Part>)
    requires Aligned(parts) && c.maxAlign in ALIGNMENTS
    ensures WellFormed(PlaceAll(c, parts).Seal())
    ensures PlaceAll(c, parts).offset <= PlaceAll(c, parts).Seal().size
            < PlaceAll(c, parts).offset + PlaceAll(c, parts).maxAlign
  {
    CursorMoves(c, parts, 0, |parts|);
    assert parts[..|parts|] == parts;
    AlignUpFacts(PlaceAll(c, parts).offset, PlaceAll(c, parts).maxAlign);
  }

  lemma {:induction false} StructWellFormed(p: Program, st: StructDef, visiting: set<string>)
    ensures WellFormed(StructLayout(p, st, visiting))
    ensures StructLayout(p, st, visiting).ok ==>
              && WellFormed(BaseLayout(p, st, visiting + {st.name}))
              && Aligned(MemberParts(p, st.members, visiting + {st.name}).value)
    decreases |p.Names() + {st.name} - visiting|, 0, 0
  {
    if StructLayout(p, st, visiting).ok {
      RoomShrinks(p, st.name, visiting);
      var inside := visiting + {st.name};
      if BaseOf(p, st).Some? {
        var base := BaseOf(p, st).value;
        assert p.Names() + {base.name} - inside == p.Names() - inside;
        StructWellFormed(p, base, inside);
      }
      MembersAligned(p, st.members, inside);
      var parts := MemberParts(p, st.members, inside).value;
      SealWellFormed(BaseCursor(BaseLayout(p, st, inside)), parts);
    }
  }

  lemma {:induction false} MembersAligned(p: Program, members: seq<Member>, visiting: set<string>)
    ensures MemberParts(p, members, visiting).Some? ==> Aligned(MemberParts(p, members, visiting).value)
    decreases |p.Names() - visiting|, 2, |members|
  {
    if members != [] {
      MembersAligned(p, members[..|members| - 1], visiting);
      var last := members[|members| - 1];
      if !last.Skipped() { TypeWellFormed(p, last.ty, visiting); }
    }
  }

  lemma {:induction false} TypeWellFormed(p: Program, t: Type, visiting: set<string>)
    ensures WellFormed(TypeLayout(p, t, visiting))
    decreases |p.Names() - visiting|, 1, t, 1
  {
    match t
    case StructRef(name) =>
      if p.Find(name).Some? {
        assert p.Names() + {name} - visiting == p.Names() - visiting;
        StructWellFormed(p, p.Find(name).value, visiting);
      } else {
        BuiltinWellFormed(name);
      }
    case TupleOf(elems) =>
      ElementsAligned(p, elems, visiting);
      if ElementParts(p, elems, visiting).Some? { TupleSealed(ElementParts(p, elems, visiting).value); }
    case Plain(kind) => KindWellFormed(kind);
    case _ =>
  }

  lemma BuiltinWellFormed(name: string)
    ensures WellFormed(BuiltinLayout(name))
  {
  }

  lemma KindWellFormed(kind: Kind)
    ensures WellFormed(KindLayout(kind))
  {
  }

  lemma TupleSealed(parts: seq<Part>)
    requires Aligned(parts)
    ensures WellFormed(PlaceAll(Cursor(0, 1, false, 0), parts).Seal())
  {
    SealWellFormed(Cursor(0, 1, false, 0), parts);
  }

  lemma {:induction false} ElementsAligned(p: Program, elems: seq<Type>, visiting: set<string>)
    ensures ElementParts(p, elems, visiting).Some? ==> Aligned(ElementParts(p, elems, visiting).value)
    decreases |p.Names() - visiting|, 1, elems, 0
  {
    if elems != [] {
      ElementsAligned(p, elems[..|elems| - 1], visiting);
      TypeWellFormed(p, elems[|elems| - 1], visiting);
    }
  }

  /** The parts of a struct that has a layout, in member order. */
  ghost function Parts(p: Program, st: StructDef): seq<Part>
    requires StructLayout(p, st, {}).ok
  {
    assert {} + {st.name} == {st.name};
    MemberParts(p, st.members, {st.name}).value
  }

  /** Everything a struct layout promises about its parts, for every struct that has one. */
  lemma StructPlacement(p: Program, st: StructDef)
    requires StructLayout(p, st, {}).ok
    ensures
      var info, base := StructLayout(p, st, {}), BaseLayout(p, st, {st.name});
      var c, parts := BaseCursor(base), Parts(p, st);
      && base.ok && c.maxAlign == Max(1, base.align)
      && WellFormed(info)
      && (forall part :: part in parts ==> part.Align() <= info.align)
      && (info.align == c.maxAlign || exists part :: part in parts && part.Align() == info.align)
      && (forall i :: 0 <= i < |parts| ==> base.size <= Start(c, parts, i) && Finish(c, parts, i) <= info.size)
      && (forall i :: 0 <= i < |parts| && parts[i].WholePart? ==>
            && Multiple(Start(c, parts, i), parts[i].align)
            && Start(c, parts, i) - Before(c, parts, i).offset < parts[i].align)
      && (forall i, j :: 0 <= i < j < |parts| ==>
            || Finish(c, parts, i) <= Start(c, parts, j)
            || (parts[i].BitPart? && parts[j].BitPart? && Start(c, parts, i) == Start(c, parts, j)
                && 0 <= Slot(c, parts, i) < Slot(c, parts, j) < 8))
      && Before(c, parts, |parts|).offset <= info.size < Before(c, parts, |parts|).offset + info.align
  {
    StructWellFormed(p, st, {});
    assert {} + {st.name} == {st.name};
    var base := BaseLayout(p, st, {st.name});
    var c, parts := BaseCursor(base), Parts(p, st);
    assert parts[..|parts|] == parts;
    SealWellFormed(c, parts);
    MaxAlignAttained(c, parts);
    forall i | 0 <= i < |parts|
      ensures base.size <= Start(c, parts, i) && Finish(c, parts, i) <= StructLayout(p, st, {}).size
      ensures parts[i].WholePart? ==>
            && Multiple(Start(c, parts, i), parts[i].align)
            && Start(c, parts, i) - Before(c, parts, i).offset < parts[i].align
    {
      PartPlaced(c, parts, i);
      CursorMoves(c, parts, i + 1, |parts|);
      PackingBeyondBase(c, parts, i);
    }
    forall i, j | 0 <= i < j < |parts|
      ensures Finish(c, parts, i) <= Start(c, parts, j)
              || (parts[i].BitPart? && parts[j].BitPart? && Start(c, parts, i) == Start(c, parts, j)
                  && 0 <= Slot(c, parts, i) < Slot(c, parts, j) < 8)
    {
      PartsDisjoint(c, parts, i, j);
    }
  }

  lemma PackingBeyondBase(c: Cursor, parts: seq<Part>, i: nat)
    requires Aligned(parts) && i <= |parts| && c.maxAlign in ALIGNMENTS && !c.packing
    ensures Before(c, parts, i).packing ==> c.offset < Before(c, parts, i).offset
    decreases i
  {
    if i > 0 {
      PackingBeyondBase(c, parts, i - 1);
      CursorMoves(c, parts, 0, i - 1);
      BeforeNext(c, parts, i - 1);
    }
  }

  // Tuples: the same placement, one part for each element, and no bits.

  lemma {:induction false} ElementPart(p: Program, elems: seq<Type>, visiting: set<string>, i: nat)
    requires ElementParts(p, elems, visiting).Some? && i < |elems|
    ensures |ElementParts(p, elems, visiting).value| == |elems|
    ensures ElementParts(p, elems, visiting).value[i]
            == WholePart(TypeLayout(p, elems[i], visiting).size, TypeLayout(p, elems[i], visiting).align)
    decreases |elems|
  {
    var front := elems[..|elems| - 1];
    if front != [] { ElementPart(p, front, visiting, if i < |front| then i else 0); }
    if i < |front| { assert front[i] == elems[i]; }
  }

  const TUPLE_START := Cursor(0, 1, false, 0)

  ghost predicate ElementPlaced(p: Program, elems: seq<Type>, visiting: set<string>, parts: seq<Part>, i: nat)
    requires |parts| == |elems| && i < |elems|
  {
    var elem := TypeLayout(p, elems[i], visiting);
    && elem.ok && parts[i] == WholePart(elem.size, elem.align)
    && Multiple(Start(TUPLE_START, parts, i), elem.align)
    && 0 <= Start(TUPLE_START, parts, i) - Before(TUPLE_START, parts, i).offset < elem.align
    && Finish(TUPLE_START, parts, i) == Start(TUPLE_START, parts, i) + elem.size
    && Finish(TUPLE_START, parts, i) <= PlaceAll(TUPLE_START, parts).Seal().size
  }

  lemma TupleParts(p: Program, elems: seq<Type>, visiting: set<string>)
    requires TypeLayout(p, TupleOf(elems), visiting).ok
    ensures ElementParts(p, elems, visiting).Some?
    ensures Aligned(ElementParts(p, elems, visiting).value)
    ensures TypeLayout(p, TupleOf(elems), visiting)
            == PlaceAll(TUPLE_START, ElementParts(p, elems, visiting).value).Seal()
  {
    ElementsAligned(p, elems, visiting);
  }

  lemma ElementsDisjoint(p: Program, elems: seq<Type>, visiting: set<string>, i: nat, j: nat)
    requires ElementParts(p, elems, visiting).Some?
    requires i < j < |ElementParts(p, elems, visiting).value|
    ensures Finish(TUPLE_START, ElementParts(p, elems, visiting).value, i)
            <= Start(TUPLE_START, ElementParts(p, elems, visiting).value, j)
  {
    ElementsAligned(p, elems, visiting);
    ElementsCount(p, elems, visiting);
    ElementPart(p, elems, visiting, i);
    PartsDisjoint(TUPLE_START, ElementParts(p, elems, visiting).value, i, j);
  }

  lemma ElementIsPlaced(p: Program, elems: seq<Type>, visiting: set<string>, i: nat)
    requires ElementParts(p, elems, visiting).Some? && i < |elems|
    ensures |ElementParts(p, elems, visiting).value| == |elems|
    ensures ElementPlaced(p, elems, visiting, ElementParts(p, elems, visiting).value, i)
  {
    var parts := ElementParts(p, elems, visiting).value;
    ElementPart(p, elems, visiting, i);
    ElementsAligned(p, elems, visiting);
    ElementsOk(p, elems, visiting);
    TypeOk(p, elems[i], visiting);
    PartPlaced(TUPLE_START, parts, i);
    SealWellFormed(TUPLE_START, parts);
    CursorMoves(TUPLE_START, parts, i + 1, |parts|);
    assert parts[..|parts|] == parts;
  }

  /**
   Every tuple with a layout: one part for each element, each starting at a multiple of its alignment with less
   padding than that, disjoint and inside the size, which is the least multiple of the largest alignment that fits.
   */
  lemma TuplePlacement(p: Program, elems: seq<Type>, visiting: set<string>)
    requires TypeLayout(p, TupleOf(elems), visiting).ok
    ensures
      var info, parts := TypeLayout(p, TupleOf(elems), visiting), ElementParts(p, elems, visiting).value;
      var c := TUPLE_START;
      && |parts| == |elems| && info == PlaceAll(c, parts).Seal()
      && (forall i :: 0 <= i < |elems| ==> ElementPlaced(p, elems, visiting, parts, i))
      && (forall i, j :: 0 <= i < j < |parts| ==> Finish(c, parts, i) <= Start(c, parts, j))
      && WellFormed(info)
      && (forall part :: part in parts ==> part.Align() <= info.align)
      && (info.align == 1 || exists part :: part in parts && part.Align() == info.align)
      && Before(c, parts, |parts|).offset <= info.size < Before(c, parts, |parts|).offset + info.align
  {
    TupleParts(p, elems, visiting);
    var parts, c := ElementParts(p, elems, visiting).value, TUPLE_START;
    ElementsCount(p, elems, visiting);
    SealWellFormed(c, parts);
    MaxAlignAttained(c, parts);
    assert parts[..|parts|] == parts;
    forall i | 0 <= i < |elems|
      ensures ElementPlaced(p, elems, visiting, parts, i)
    {
      ElementIsPlaced(p, elems, visiting, i);
    }
    forall i, j | 0 <= i < j < |parts|
      ensures Finish(c, parts, i) <= Start(c, parts, j)
    {
      ElementsDisjoint(p, elems, visiting, i, j);
    }
  }

  lemma ElementsCount(p: Program, elems: seq<Type>, visiting: set<string>)
    requires ElementParts(p, elems, visiting).Some?
    ensures |ElementParts(p, elems, visiting).value| == |elems|
  {
    if elems != [] { ElementPart(p, elems, visiting, 0); }
  }

  // The layout summary.

  datatype FieldSize = FieldSize(name: string, size: nat)
  datatype Summary = Summary(size: nat, fields: seq<FieldSize>)

  /** One entry for each member that has a type, with the size of that type laid out on its own. */
  ghost function FieldSizes(p: Program, members: seq<Member>): seq<FieldSize> {
    if members == [] then []
    else
      var last := members[|members| - 1];
      FieldSizes(p, members[..|members| - 1])
      + if last.Skipped() then [] else [FieldSize(last.name, TypeLayout(p, last.ty, {}).size)]
  }

  method StructLayoutSummary(p: Program, st: StructDef) returns (r: Option<Summary>)
    ensures r.Some? <==> !CycleReachable(p, st) && !UnknownTypeReachable(p, st)
    ensures r.Some? ==> r.value.size == StructLayout(p, st, {}).size
                        && r.value.fields == FieldSizes(p, st.members)
  {
    LayoutExists(p, st);
    var pass := new LayoutPass(p);
    var layout := pass.ComputeStructLayout(st);
    if !layout.ok { return None; }
    var fields: seq<FieldSize> := [];
    for i := 0 to |st.members|
      invariant fields == FieldSizes(p, st.members[..i])
    {
      var member := st.members[i];
      assert st.members[..i + 1][..i] == st.members[..i];
      if member.Skipped() { continue; }
      var fieldPass := new LayoutPass(p);
      var field := fieldPass.ComputeTypeLayout(member.ty);
      MemberOwnLayout(p, st, member);
      if !field.ok { continue; }
      fields := fields + [FieldSize(member.name, field.size)];
    }
    assert st.members[..|st.members|] == st.members;
    return Some(Summary(layout.size, fields));
  }

  lemma MemberOwnLayout(p: Program, st: StructDef, m: Member)
    requires StructLayout(p, st, {}).ok && m in st.members && !m.Skipped()
    ensures TypeLayout(p, m.ty, {}).ok
    ensures TypeLayout(p, m.ty, {}) == TypeLayout(p, m.ty, {st.name})
  {
    assert {} + {st.name} == {st.name};
    MembersOk(p, st.members, {st.name});
    TypeOk(p, m.ty, {st.name});
    TypeStable(p, m.ty, {st.name}, {});
  }

  /** The members the summary lists and the layout packs. */
  ghost function Typed(members: seq<Member>): (r: seq<Member>)
    ensures forall i :: 0 <= i < |r| ==> r[i].Member?
  {
    if members == [] then []
    else
      var last := members[|members| - 1];
      Typed(members[..|members| - 1]) + if last.Skipped() then [] else [last]
  }

  /**
   One part and one listed field for each typed member, in order. A field that is no bit lists the bytes it takes
   in the total. A bit lists one byte, unless its type is a struct of the program called `bit`.
   */
  lemma SummaryMatchesTotal(p: Program, st: StructDef)
    requires StructLayout(p, st, {}).ok
    ensures
      var parts, fields, members := Parts(p, st), FieldSizes(p, st.members), Typed(st.members);
      && |parts| == |fields| == |members|
      && (forall i :: 0 <= i < |members| ==>
            && fields[i].name == members[i].name
            && fields[i].size == TypeLayout(p, members[i].ty, {}).size
            && (parts[i].BitPart? <==> IsBitFieldType(members[i].ty))
            && (parts[i].WholePart? ==> parts[i].size == fields[i].size)
            && (parts[i].BitPart? && (members[i].ty == Plain(KindBit) || p.Find("bit").None?) ==> fields[i].size == 1))
      && StructLayout(p, st, {}) == PlaceAll(BaseCursor(BaseLayout(p, st, {st.name})), parts).Seal()
  {
    assert {} + {st.name} == {st.name};
    MembersStable(p, st.members, {st.name}, {});
    FieldSizesAreParts(p, st.members);
  }

  lemma {:induction false} FieldSizesAreParts(p: Program, members: seq<Member>)
    requires MemberParts(p, members, {}).Some?
    ensures
      var parts, fields, typed := MemberParts(p, members, {}).value, FieldSizes(p, members), Typed(members);
      && |parts| == |fields| == |typed|
      && (forall i :: 0 <= i < |typed| ==>
            && fields[i] == FieldSize(typed[i].name, TypeLayout(p, typed[i].ty, {}).size)
            && parts[i] == MemberPart(typed[i].ty, TypeLayout(p, typed[i].ty, {})))
  {
    if members != [] { FieldSizesAreParts(p, members[..|members| - 1]); }
  }

  // Which of the listed bytes are bytes of the total: every bit lists a byte, but eight bits share one.

  /** The bytes part `i` adds to the total, padding aside. */
  ghost function Taken(c: Cursor, parts: seq<Part>, i: nat): int
    requires i < |parts|
  {
    Finish(c, parts, i) - Before(c, parts, i).offset
    - if parts[i].BitPart? then 0 else Start(c, parts, i) - Before(c, parts, i).offset
  }

  /** How many bits stand directly before part `i`. */
  ghost function BitsBefore(parts: seq<Part>, i: nat): nat
    requires i <= |parts|
  {
    if i == 0 || parts[i - 1].WholePart? then 0 else 1 + BitsBefore(parts, i - 1)
  }

  /** Where the run of bits before part `i` starts. */
  lemma {:induction false} BitsBeforeRun(parts: seq<Part>, i: nat) returns (first: nat)
    requires i <= |parts|
    ensures first <= i && i - first == BitsBefore(parts, i)
    ensures first == 0 || parts[first - 1].WholePart?
    ensures forall k :: first <= k < i ==> parts[k].BitPart?
  {
    first := i;
    if i > 0 && parts[i - 1].BitPart? { first := BitsBeforeRun(parts, i - 1); }
  }

  lemma BitTaken(c: Cursor, parts: seq<Part>, first: nat, i: nat)
    requires first <= i < |parts| && !c.packing
    requires forall k :: first <= k <= i ==> parts[k].BitPart?
    requires first == 0 || parts[first - 1].WholePart?
    ensures Taken(c, parts, i) == if (i - first) % 8 == 0 then 1 else 0
  {
    BitRun(c, parts, first, i - first);
    BitRun(c, parts, first, i + 1 - first);
    NextByte(i - first);
    assert first + (i - first) == i && first + (i + 1 - first) == i + 1;
  }

  lemma WholeTaken(c: Cursor, parts: seq<Part>, i: nat)
    requires i < |parts| && parts[i].WholePart?
    ensures Taken(c, parts, i) == parts[i].size
  {
  }

  /** A field takes its size; a bit takes a byte exactly when it is the first, ninth, ... of its run. */
  lemma BytesTaken(c: Cursor, parts: seq<Part>, i: nat)
    requires i < |parts| && !c.packing
    ensures Taken(c, parts, i) == if parts[i].WholePart? then parts[i].size
                                  else if BitsBefore(parts, i) % 8 == 0 then 1 else 0
  {
    if parts[i].WholePart? {
      WholeTaken(c, parts, i);
    } else {
      var first := BitsBeforeRun(parts, i);
      BitTaken(c, parts, first, i);
      assert i - first == BitsBefore(parts, i);
    }
  }

  lemma NextByte(n: nat)
    ensures (n + 8) / 8 - (n + 7) / 8 == if n % 8 == 0 then 1 else 0
  {
  }

  ghost predicate AdjacentBits(members: seq<Member>)
    requires forall i :: 0 <= i < |members| ==> members[i].Member?
  {
    exists i :: 0 <= i < |members| - 1 && IsBitFieldType(members[i].ty) && IsBitFieldType(members[i + 1].ty)
  }

  /** The byte ranges the summary suggests: each field's listed size from where the field starts. */
  ghost predicate ListedDisjoint(p: Program, st: StructDef)
    requires StructLayout(p, st, {}).ok
  {
    SummaryMatchesTotal(p, st);
    var c, parts, fields := BaseCursor(BaseLayout(p, st, {st.name})), Parts(p, st), FieldSizes(p, st.members);
    forall i, j :: 0 <= i < j < |parts| ==> Start(c, parts, i) + fields[i].size <= Start(c, parts, j)
  }

  /** Every listed size is the number of bytes the field takes of the total. */
  ghost predicate ListedTaken(p: Program, st: StructDef)
    requires StructLayout(p, st, {}).ok
  {
    SummaryMatchesTotal(p, st);
    var c, parts, fields := BaseCursor(BaseLayout(p, st, {st.name})), Parts(p, st), FieldSizes(p, st.members);
    forall i :: 0 <= i < |parts| ==> fields[i].size == Taken(c, parts, i)
  }

  /** Two bits side by side, traced back to the start of their run, are two bits of one byte. */
  lemma AdjacentShare(c: Cursor, parts: seq<Part>, i: nat) returns (first: nat)
    requires i + 1 < |parts| && parts[i].BitPart? && parts[i + 1].BitPart? && !c.packing
    ensures first + 1 < |parts| && parts[first].BitPart? && parts[first + 1].BitPart?
    ensures Start(c, parts, first) == Start(c, parts, first + 1)
    ensures Taken(c, parts, first + 1) == 0
  {
    first := BitsBeforeRun(parts, i);
    BitRun(c, parts, first, 1);
    BitRun(c, parts, first, 2);
  }

  /** Without bits side by side every two parts take disjoint bytes. */
  lemma SingleBitsDisjoint(c: Cursor, parts: seq<Part>, i: nat, j: nat)
    requires Aligned(parts) && i < j < |parts| && c.maxAlign in ALIGNMENTS && !c.packing
    requires parts[j].BitPart? ==> parts[j - 1].WholePart?
    ensures Finish(c, parts, i) <= Start(c, parts, j)
  {
    CursorMoves(c, parts, i + 1, j);
    PartPlaced(c, parts, j);
    PackingMeansBit(c, parts, j);
  }

  /** For every program: the listed sizes are bytes of the total exactly when each bit lists the byte it opens. */
  lemma SummaryTaken(p: Program, st: StructDef)
    requires StructLayout(p, st, {}).ok
    ensures
      var parts, fields := Parts(p, st), FieldSizes(p, st.members);
      |fields| == |parts| &&
      (ListedTaken(p, st) <==>
       forall i :: 0 <= i < |parts| && parts[i].BitPart? ==>
         fields[i].size == if BitsBefore(parts, i) % 8 == 0 then 1 else 0)
  {
    SummaryMatchesTotal(p, st);
    var c, parts := BaseCursor(BaseLayout(p, st, {st.name})), Parts(p, st);
    forall i | 0 <= i < |parts|
      ensures Taken(c, parts, i) == if parts[i].WholePart? then parts[i].size
                                    else if BitsBefore(parts, i) % 8 == 0 then 1 else 0
    {
      BytesTaken(c, parts, i);
    }
  }

  /**
   When the program has no struct called `bit`, the listed sizes are bytes of the total, and take disjoint bytes,
   exactly when no two typed members in a row are bits.
   */
  lemma SummaryExact(p: Program, st: StructDef)
    requires StructLayout(p, st, {}).ok && p.Find("bit").None?
    ensures ListedDisjoint(p, st) <==> !AdjacentBits(Typed(st.members))
    ensures ListedTaken(p, st) <==> !AdjacentBits(Typed(st.members))
  {
    if AdjacentBits(Typed(st.members)) {
      AdjacentListed(p, st);
    } else {
      SeparateListed(p, st);
    }
  }

  lemma AdjacentListed(p: Program, st: StructDef)
    requires StructLayout(p, st, {}).ok && p.Find("bit").None? && AdjacentBits(Typed(st.members))
    ensures !ListedDisjoint(p, st) && !ListedTaken(p, st)
  {
    SummaryMatchesTotal(p, st);
    var c, parts, members := BaseCursor(BaseLayout(p, st, {st.name})), Parts(p, st), Typed(st.members);
    var i :| 0 <= i < |members| - 1 && IsBitFieldType(members[i].ty) && IsBitFieldType(members[i + 1].ty);
    var first := AdjacentShare(c, parts, i);
  }

  lemma SeparateListed(p: Program, st: StructDef)
    requires StructLayout(p, st, {}).ok && p.Find("bit").None? && !AdjacentBits(Typed(st.members))
    ensures ListedDisjoint(p, st) && ListedTaken(p, st)
  {
    SummaryMatchesTotal(p, st);
    StructWellFormed(p, st, {});
    assert {} + {st.name} == {st.name};
    var c, parts, fields := BaseCursor(BaseLayout(p, st, {st.name})), Parts(p, st), FieldSizes(p, st.members);
    forall i, j | 0 <= i < j < |parts|
      ensures Start(c, parts, i) + fields[i].size <= Start(c, parts, j)
    {
      assert parts[j].BitPart? ==> parts[j - 1].WholePart?;
      SingleBitsDisjoint(c, parts, i, j);
    }
    forall i | 0 <= i < |parts|
      ensures fields[i].size == Taken(c, parts, i)
    {
      assert i > 0 && parts[i].BitPart? ==> parts[i - 1].WholePart?;
      BytesTaken(c, parts, i);
    }
  }

  function TwoBits(name: string, a: string, b: string): StructDef {
    StructDef(name, "", [Member(a, Plain(KindBit)), Member(b, Plain(KindBit))])
  }

  /** The smallest struct whose listed sizes do not add up, in any program: two bytes listed, one byte in all. */
  lemma TwoBitsOneByte(p: Program, name: string, a: string, b: string)
    ensures StructLayout(p, TwoBits(name, a, b), {}) == LayoutInfo(1, 1, true)
    ensures FieldSizes(p, TwoBits(name, a, b).members) == [FieldSize(a, 1), FieldSize(b, 1)]
  {
    var ms := TwoBits(name, a, b).members;
    var inside := {} + {name};
    assert ms[..0] == [] && ms[..2] == ms && ms[..1] == [ms[0]];
    MemberPartsStep(p, ms, 0, inside);
    MemberPartsStep(p, ms, 1, inside);
    assert TypeLayout(p, Plain(KindBit), inside) == LayoutInfo(1, 1, true);
    assert IsBitFieldType(Plain(KindBit)) && [] + [BitPart] == [BitPart];
    assert MemberParts(p, ms[..1], inside) == Some([BitPart]);
    assert MemberParts(p, ms[..2], inside) == Some([BitPart] + [BitPart]);
    TwoBitsPlaced(BaseCursor(LayoutInfo(0, 1, true)));
    assert [BitPart] + [BitPart] == [BitPart, BitPart];
    var st := TwoBits(name, a, b);
    assert MemberParts(p, st.members, {} + {st.name}) == Some([BitPart, BitPart]);
    assert BaseLayout(p, st, {} + {st.name}) == LayoutInfo(0, 1, true);
    assert Cursor(1, 1, true, 2).Seal() == LayoutInfo(1, 1, true);
    assert FieldSizes(p, ms[..1]) == [FieldSize(a, 1)] by { assert ms[..1][..0] == []; }
  }

  lemma TwoBitsPlaced(c: Cursor)
    requires !c.packing && c.maxAlign >= 1
    ensures PlaceAll(c, [BitPart, BitPart]) == Cursor(c.offset + 1, c.maxAlign, true, 2)
  {
    PlaceLast(c, [], BitPart);
    PlaceLast(c, [BitPart], BitPart);
    assert [] + [BitPart] == [BitPart] && [BitPart] + [BitPart] == [BitPart, BitPart];
  }
}
